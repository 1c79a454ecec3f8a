/**
  The three Python string operations the extractor relies on, over `seq<char>`:
  `str.split(sep)`, its inverse `sep.join(parts)`, and `str.replace(old, new)`.
  All three scan from the left and never let two matches overlap.
 */
module Text {
  import opened Wrappers

  /** `pat` occurs in `s` starting at index `i`. */
  predicate Occurs(s: string, pat: string, i: int) {
    0 <= i && i + |pat| <= |s| && s[i..i + |pat|] == pat
  }

  /** `pat` occurs nowhere in `s`. */
  predicate Absent(s: string, pat: string) {
    forall i :: 0 <= i <= |s| ==> !Occurs(s, pat, i)
  }

  lemma OccursInTail(s: string, pat: string, i: int)
    requires |s| > 0 && 0 <= i
    ensures Occurs(s, pat, i + 1) <==> Occurs(s[1..], pat, i)
  {
    if i + 1 + |pat| <= |s| {
      assert s[1..][i..i + |pat|] == s[i + 1..i + 1 + |pat|];
    }
  }

  /** The leftmost occurrence of `pat` in `s`, as `str.find` computes it. */
  function Find(s: string, pat: string): (r: Option<nat>)
    requires |pat| > 0
    ensures r.Some? ==> Occurs(s, pat, r.value)
    ensures r.Some? ==> forall j :: 0 <= j < r.value ==> !Occurs(s, pat, j)
    ensures r.None? ==> Absent(s, pat)
    decreases |s|
  {
    if |s| < |pat| then None
    else if pat <= s then
      assert s[0..|pat|] == pat;
      Some(0)
    else
      assert !Occurs(s, pat, 0) by { assert s[..|pat|] == s[0..|pat|]; }
      var rest := Find(s[1..], pat);
      forall j | 1 <= j ensures Occurs(s, pat, j) <==> Occurs(s[1..], pat, j - 1) {
        OccursInTail(s, pat, j - 1);
      }
      match rest
      case None => None
      case Some(i) => Some(i + 1)
  }

  /** `s.split(sep)` for a non-empty separator. */
  function Split(s: string, sep: string): (parts: seq<string>)
    requires |sep| > 0
    ensures |parts| >= 1
    ensures forall k :: 0 <= k < |parts| ==> Absent(parts[k], sep)
    decreases |s|
  {
    match Find(s, sep)
    case None => [s]
    case Some(i) =>
      AbsentBefore(s, sep, i);
      [s[..i]] + Split(s[i + |sep|..], sep)
  }

  /** The text before the first occurrence holds no occurrence. */
  lemma AbsentBefore(s: string, pat: string, i: nat)
    requires |pat| > 0 && i <= |s| && forall j :: 0 <= j < i ==> !Occurs(s, pat, j)
    ensures Absent(s[..i], pat)
  {
    forall j | 0 <= j <= i ensures !Occurs(s[..i], pat, j) {
      if j + |pat| <= i {
        assert s[..i][j..j + |pat|] == s[j..j + |pat|];
        assert !Occurs(s, pat, j);
      }
    }
  }

  lemma SplitStep(s: string, sep: string, i: nat)
    requires |sep| > 0 && Find(s, sep) == Some(i)
    ensures i + |sep| <= |s|
    ensures Split(s, sep) == [s[..i]] + Split(s[i + |sep|..], sep)
  {
    assert Occurs(s, sep, i);
  }

  lemma JoinStep(part: string, parts: seq<string>, sep: string)
    requires |parts| >= 1
    ensures Join([part] + parts, sep) == part + sep + Join(parts, sep)
  {
    assert ([part] + parts)[1..] == parts;
  }

  lemma ReplaceStep(s: string, pat: string, rep: string)
    requires |pat| > 0 && pat <= s
    ensures Replace(s, pat, rep) == rep + Replace(s[|pat|..], pat, rep)
  {
  }

  /** `sep.join(parts)`. */
  function Join(parts: seq<string>, sep: string): string
    requires |parts| >= 1
  {
    if |parts| == 1 then parts[0] else parts[0] + sep + Join(parts[1..], sep)
  }

  /** `s.replace(pat, rep)` for a non-empty pattern: every non-overlapping
      occurrence, found left to right, is replaced. */
  function Replace(s: string, pat: string, rep: string): string
    requires |pat| > 0
    decreases |s|
  {
    if |s| < |pat| then s
    else if pat <= s then rep + Replace(s[|pat|..], pat, rep)
    else [s[0]] + Replace(s[1..], pat, rep)
  }

  /** Joining the parts of a split with the same separator gives back the string. */
  lemma {:induction false} JoinSplit(s: string, sep: string)
    requires |sep| > 0
    ensures Join(Split(s, sep), sep) == s
    decreases |s|
  {
    match Find(s, sep)
    case None =>
    case Some(i) =>
      var rest := s[i + |sep|..];
      SplitStep(s, sep, i);
      JoinSplit(rest, sep);
      JoinStep(s[..i], Split(rest, sep), sep);
      assert s[i..i + |sep|] == sep;
      assert s == s[..i] + s[i..i + |sep|] + rest;
  }

  /** Replacement leaves alone a prefix in which no occurrence starts. */
  lemma {:induction false} ReplaceKeepsPrefix(s: string, pat: string, rep: string, i: nat)
    requires |pat| > 0 && i <= |s|
    requires forall j :: 0 <= j < i ==> !Occurs(s, pat, j)
    ensures Replace(s, pat, rep) == s[..i] + Replace(s[i..], pat, rep)
    decreases i
  {
    if i == 0 {
      assert s[i..] == s;
    } else if |s| < |pat| {
      assert s[..i] + s[i..] == s;
    } else {
      assert !Occurs(s, pat, 0);
      assert !(pat <= s) by { assert s[..|pat|] == s[0..|pat|]; }
      forall j | 0 <= j < i - 1 ensures !Occurs(s[1..], pat, j) {
        OccursInTail(s, pat, j);
      }
      ReplaceKeepsPrefix(s[1..], pat, rep, i - 1);
      assert s[1..][i - 1..] == s[i..];
      assert s[..i] == [s[0]] + s[1..][..i - 1];
    }
  }

  /** A string without any occurrence of the pattern is unchanged by replacement. */
  lemma ReplaceAbsent(s: string, pat: string, rep: string)
    requires |pat| > 0 && Absent(s, pat)
    ensures Replace(s, pat, rep) == s
  {
    ReplaceKeepsPrefix(s, pat, rep, |s|);
    assert s[..|s|] == s;
  }

  /** Python's identity `s.replace(p, r) == r.join(s.split(p))`: replacement
      agrees with an independent definition through split and join. */
  lemma {:induction false} ReplaceIsJoinOfSplit(s: string, pat: string, rep: string)
    requires |pat| > 0
    ensures Replace(s, pat, rep) == Join(Split(s, pat), rep)
    decreases |s|
  {
    match Find(s, pat)
    case None =>
      ReplaceAbsent(s, pat, rep);
    case Some(i) =>
      var rest := s[i + |pat|..];
      SplitStep(s, pat, i);
      ReplaceKeepsPrefix(s, pat, rep, i);
      assert s[i..][..|pat|] == s[i..i + |pat|];
      ReplaceStep(s[i..], pat, rep);
      assert s[i..][|pat|..] == rest;
      ReplaceIsJoinOfSplit(rest, pat, rep);
      JoinStep(s[..i], Split(rest, pat), rep);
  }

  lemma OccursChar(s: string, c: char, j: int)
    ensures Occurs(s, [c], j) <==> 0 <= j < |s| && s[j] == c
  {
    if 0 <= j < |s| {
      assert s[j..j + 1] == [s[j]];
    }
  }

  /** Splitting on one character yields one part more than the number of
      times that character occurs. */
  lemma {:induction false} SplitCharCount(s: string, c: char)
    ensures |Split(s, [c])| == multiset(s)[c] + 1
    decreases |s|
  {
    match Find(s, [c])
    case None =>
      forall j | 0 <= j < |s| ensures s[j] != c {
        OccursChar(s, c, j);
      }
      assert c !in s;
    case Some(i) =>
      var rest := s[i + 1..];
      OccursChar(s, c, i);
      forall j | 0 <= j < i ensures s[..i][j] != c {
        OccursChar(s, c, j);
      }
      assert c !in s[..i];
      assert s == s[..i] + [c] + rest;
      assert multiset(s) == multiset(s[..i]) + multiset([c]) + multiset(rest);
      SplitCharCount(rest, c);
  }
}
