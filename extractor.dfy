/**
  The extraction pipeline of `extractor.py`: resolve each repository
  specifier, derive the web address of the repository from its remote,
  keep the commits whose author date lies in the window, format them as
  rows, and sort all rows by date for the report.

  The local repositories are given as a `World`: for each path, the
  configured `user.email`, the URLs of the default remote and, per branch,
  the commit stream that git yields for that branch once the author and
  no-merges filters have been applied.
 */
module Extractor {
  import opened Wrappers
  import opened Text
  import opened Calendar
  import opened Commits
  import opened Ordering

  // ---------------------------------------------------------------------
  // Repository specifiers: `path` or `path:branch`

  datatype Specifier = Specifier(path: string, branch: string)

  /** `path, branch = arg.split(':')`, falling back to the whole argument and
      the default branch when the split does not give exactly two parts. */
  function ParseSpecifier(arg: string, defaultBranch: string): Specifier {
    var parts := Split(arg, ":");
    if |parts| == 2 then Specifier(parts[0], parts[1]) else Specifier(arg, defaultBranch)
  }

  /** Either the whole argument on the default branch, or a colon-free path
      and a colon-free branch that give back the argument when rejoined with `:`. */
  lemma SpecifierRejoins(arg: string, defaultBranch: string)
    ensures var r := ParseSpecifier(arg, defaultBranch);
      r == Specifier(arg, defaultBranch)
      || (r.path + ":" + r.branch == arg && Absent(r.path, ":") && Absent(r.branch, ":"))
  {
    var parts := Split(arg, ":");
    if |parts| == 2 {
      JoinSplit(arg, ":");
      assert Join(parts, ":") == parts[0] + ":" + parts[1];
    }
  }

  /** An argument with exactly one colon is split around it; either side may be empty. */
  lemma SpecifierWithBranch(arg: string, defaultBranch: string, i: nat)
    requires i < |arg| && arg[i] == ':' && multiset(arg)[':'] == 1
    ensures ParseSpecifier(arg, defaultBranch) == Specifier(arg[..i], arg[i + 1..])
  {
    assert arg == arg[..i] + [':'] + arg[i + 1..];
    assert multiset(arg) == multiset(arg[..i]) + multiset([':']) + multiset(arg[i + 1..]);
    assert ':' !in arg[..i] && ':' !in arg[i + 1..];
    OccursChar(arg, ':', i);
    match Find(arg, ":")
    case None =>
    case Some(k) =>
      OccursChar(arg, ':', k);
      forall j | 0 <= j < i ensures arg[j] != ':' {
        assert arg[..i][j] == arg[j];
      }
      assert k == i;
      var rest := arg[i + 1..];
      forall j | 0 <= j <= |rest| ensures !Occurs(rest, ":", j) {
        OccursChar(rest, ':', j);
      }
      assert Find(rest, ":").None?;
      assert Split(rest, ":") == [rest];
      assert Split(arg, ":") == [arg[..i]] + Split(rest, ":");
  }

  /** An argument with no colon, or with two or more, is all path, on the default branch. */
  lemma SpecifierWithoutBranch(arg: string, defaultBranch: string)
    requires multiset(arg)[':'] != 1
    ensures ParseSpecifier(arg, defaultBranch) == Specifier(arg, defaultBranch)
  {
    SplitCharCount(arg, ':');
  }

  // ---------------------------------------------------------------------
  // Base URL of a repository, from the first URL of its remote

  const GitHubSshPrefix := "git@github.com:"
  const GitHubHttpsPrefix := "https://github.com/"
  const GitUrlSuffix := ".git"

  /** `url.replace(GITHUB_SSL_PREFIX, GITHUB_HTTP_PREFIX)[:-len(GIT_URL_SUFFIX)]`:
      the last four characters are cut whatever they are. */
  function BaseUrl(remoteUrl: string): (base: string)
    ensures var u := Replace(remoteUrl, GitHubSshPrefix, GitHubHttpsPrefix);
      base <= u && |base| == if |u| < |GitUrlSuffix| then 0 else |u| - |GitUrlSuffix|
  {
    var u := Replace(remoteUrl, GitHubSshPrefix, GitHubHttpsPrefix);
    if |u| >= |GitUrlSuffix| then u[..|u| - |GitUrlSuffix|] else ""
  }

  lemma SuffixKeepsAbsent(p: string)
    requires Absent(p, GitHubSshPrefix)
    ensures Absent(p + GitUrlSuffix, GitHubSshPrefix)
  {
    var s, n := p + GitUrlSuffix, |GitHubSshPrefix|;
    forall j | 0 <= j <= |s| ensures !Occurs(s, GitHubSshPrefix, j) {
      if j + n <= |p| {
        assert s[j..j + n] == p[j..j + n];
        assert !Occurs(p, GitHubSshPrefix, j);
      } else if j + n <= |s| {
        // the slice would end with the ':' of the prefix, inside ".git"
        assert s[j..j + n][n - 1] == s[j + n - 1] == GitUrlSuffix[j + n - 1 - |p|];
        assert GitUrlSuffix[j + n - 1 - |p|] != GitHubSshPrefix[n - 1];
      }
    }
  }

  /** A GitHub SSH remote `git@github.com:<p>.git` gives `https://github.com/<p>`. */
  lemma BaseUrlOfGitHubSsh(p: string)
    requires Absent(p, GitHubSshPrefix)
    ensures BaseUrl(GitHubSshPrefix + p + GitUrlSuffix) == GitHubHttpsPrefix + p
  {
    var rest := p + GitUrlSuffix;
    var url := GitHubSshPrefix + rest;
    assert url == GitHubSshPrefix + p + GitUrlSuffix;
    assert GitHubSshPrefix <= url;
    assert url[|GitHubSshPrefix|..] == rest;
    SuffixKeepsAbsent(p);
    ReplaceAbsent(rest, GitHubSshPrefix, GitHubHttpsPrefix);
    var u := GitHubHttpsPrefix + rest;
    assert u[..|u| - |GitUrlSuffix|] == GitHubHttpsPrefix + p;
  }

  /** Any other remote is only shortened by four characters, whether or not it ends in `.git`. */
  lemma BaseUrlOfOtherRemote(url: string)
    requires Absent(url, GitHubSshPrefix)
    ensures BaseUrl(url) == if |url| < 4 then "" else url[..|url| - 4]
  {
    ReplaceAbsent(url, GitHubSshPrefix, GitHubHttpsPrefix);
  }

  /** The example of a GitHub remote and a full hash. */
  lemma LinkExample()
    ensures CommitLink(BaseUrl("git@github.com:org/repo.git"), ShortId("abcdef1234567890"))
         == "https://github.com/org/repo/commit/abcdef1"
  {
    assert Absent("org/repo", GitHubSshPrefix);
    BaseUrlOfGitHubSsh("org/repo");
    assert GitHubSshPrefix + "org/repo" + GitUrlSuffix == "git@github.com:org/repo.git";
    assert BaseUrl("git@github.com:org/repo.git") == "https://github.com/org/repo";
    assert ShortId("abcdef1234567890") == "abcdef1";
  }

  // ---------------------------------------------------------------------
  // The repositories on disk

  /** A local repository as far as the extractor reads it. */
  datatype Repository = Repository(
    userEmail: Option<string>,
    remoteUrls: seq<string>,
    branches: map<string, seq<Commit>>)

  type World = map<string, Repository>

  datatype Error =
    | RepositoryNotFound(path: string)
    | MissingUserEmail(path: string)
    | NoRemoteUrl(path: string)
    | UnknownBranch(path: string, branch: string)
    | DateOutOfRange

  // ---------------------------------------------------------------------
  // Rows of one commit stream

  /** The rows of a commit stream, in stream order: one per commit in the window. */
  function Rows(commits: seq<Commit>, w: Window, baseUrl: string): (rows: seq<Row>)
    ensures |rows| <= |commits|
  {
    if commits == [] then []
    else
      var last := commits[|commits| - 1];
      Rows(commits[..|commits| - 1], w, baseUrl)
        + (if InWindow(w, last.authorDate) then [FormatRow(last, baseUrl)] else [])
  }

  /** Rows of consecutive parts of a stream follow each other. */
  lemma {:induction false} RowsConcat(a: seq<Commit>, b: seq<Commit>, w: Window, baseUrl: string)
    ensures Rows(a + b, w, baseUrl) == Rows(a, w, baseUrl) + Rows(b, w, baseUrl)
    decreases |b|
  {
    if b == [] {
      assert a + b == a;
    } else {
      var ab := a + b;
      assert ab[..|ab| - 1] == a + b[..|b| - 1];
      assert ab[|ab| - 1] == b[|b| - 1];
      RowsConcat(a, b[..|b| - 1], w, baseUrl);
    }
  }

  /** A commit in the window contributes exactly its own row at its place; a
      commit outside the window contributes nothing and changes nothing else. */
  lemma RowsOfSplice(a: seq<Commit>, c: Commit, b: seq<Commit>, w: Window, baseUrl: string)
    ensures Rows(a + [c] + b, w, baseUrl)
         == Rows(a, w, baseUrl) + (if InWindow(w, c.authorDate) then [FormatRow(c, baseUrl)] else []) + Rows(b, w, baseUrl)
  {
    RowsConcat(a + [c], b, w, baseUrl);
    RowsConcat(a, [c], w, baseUrl);
    assert [c][..0] == [];
  }

  /** Every row comes from an in-window commit of the stream, with the link
      built from the row's own identifier. */
  lemma {:induction false} RowsSound(commits: seq<Commit>, w: Window, baseUrl: string)
    ensures forall r :: r in Rows(commits, w, baseUrl) ==>
      InWindow(w, r.date) && r.link == baseUrl + "/commit/" + r.id
      && exists c :: c in commits && InWindow(w, c.authorDate) && r == FormatRow(c, baseUrl)
    decreases |commits|
  {
    if commits != [] {
      var init := commits[..|commits| - 1];
      RowsSound(init, w, baseUrl);
      forall c | c in init ensures c in commits {
        var k :| 0 <= k < |init| && init[k] == c;
        assert commits[k] == c;
      }
    }
  }

  /** Every in-window commit of the stream has its row. */
  lemma {:induction false} RowsComplete(commits: seq<Commit>, w: Window, baseUrl: string)
    ensures forall c :: c in commits && InWindow(w, c.authorDate) ==> FormatRow(c, baseUrl) in Rows(commits, w, baseUrl)
    decreases |commits|
  {
    if commits != [] {
      var init := commits[..|commits| - 1];
      RowsComplete(init, w, baseUrl);
      forall c | c in commits ensures c in init || c == commits[|commits| - 1] {
        var k :| 0 <= k < |commits| && commits[k] == c;
        if k < |commits| - 1 {
          assert init[k] == c;
        }
      }
    }
  }

  // ---------------------------------------------------------------------
  // Rows of all repositories, repository by repository

  /** The rows contributed by one specifier, or the error that stops the run. */
  function RepoRows(arg: string, w: Window, cfg: Config, world: World): Result<seq<Row>, Error> {
    var spec := ParseSpecifier(arg, cfg.defaultBranch);
    if spec.path !in world then Err(RepositoryNotFound(spec.path))
    else
      var repo := world[spec.path];
      if repo.userEmail.None? then Err(MissingUserEmail(spec.path))
      else if |repo.remoteUrls| == 0 then Err(NoRemoteUrl(spec.path))
      else if spec.branch !in repo.branches then Err(UnknownBranch(spec.path, spec.branch))
      else Ok(Rows(repo.branches[spec.branch], w, BaseUrl(repo.remoteUrls[0])))
  }

  /** The rows of all specifiers in argument order; the first error wins. */
  function AllRows(args: seq<string>, w: Window, cfg: Config, world: World): Result<seq<Row>, Error> {
    if args == [] then Ok([])
    else
      var done := AllRows(args[..|args| - 1], w, cfg, world);
      if done.Err? then done
      else
        var more := RepoRows(args[|args| - 1], w, cfg, world);
        if more.Err? then more else Ok(done.value + more.value)
  }

  /** Per-repository results taken in order: their rows one after the other,
      or the first error among them. */
  function Gather(results: seq<Result<seq<Row>, Error>>): Result<seq<Row>, Error> {
    if results == [] then Ok([])
    else
      var done := Gather(results[..|results| - 1]);
      var more := results[|results| - 1];
      if done.Err? then done else if more.Err? then more else Ok(done.value + more.value)
  }

  lemma {:induction false} GatherConcat(x: seq<Result<seq<Row>, Error>>, y: seq<Result<seq<Row>, Error>>)
    ensures Gather(x + y).Ok? <==> Gather(x).Ok? && Gather(y).Ok?
    ensures Gather(x + y).Ok? ==> Gather(x + y).value == Gather(x).value + Gather(y).value
    ensures Gather(x).Err? ==> Gather(x + y) == Gather(x)
    ensures Gather(x).Ok? && Gather(y).Err? ==> Gather(x + y) == Gather(y)
    decreases |y|
  {
    if y == [] {
      assert x + y == x;
    } else {
      var xy, init := x + y, y[..|y| - 1];
      assert xy[..|xy| - 1] == x + init;
      assert xy[|xy| - 1] == y[|y| - 1];
      GatherConcat(x, init);
      if Gather(x).Ok? && Gather(init).Ok? && y[|y| - 1].Ok? {
        var a, b, c := Gather(x).value, Gather(init).value, y[|y| - 1].value;
        assert a + (b + c) == (a + b) + c;
      }
    }
  }

  lemma {:induction false} AllRowsIsGather(args: seq<string>, w: Window, cfg: Config, world: World)
    ensures AllRows(args, w, cfg, world) == Gather(seq(|args|, i requires 0 <= i < |args| => RepoRows(args[i], w, cfg, world)))
    decreases |args|
  {
    if args != [] {
      var init := args[..|args| - 1];
      AllRowsIsGather(init, w, cfg, world);
      var rs := seq(|args|, i requires 0 <= i < |args| => RepoRows(args[i], w, cfg, world));
      assert rs[..|rs| - 1] == seq(|init|, i requires 0 <= i < |init| => RepoRows(init[i], w, cfg, world));
    }
  }

  /** Production order: the rows of a list of specifiers are those of its
      first part followed by those of the rest; an error in the first part
      wins over one in the rest. */
  lemma AllRowsConcat(a: seq<string>, b: seq<string>, w: Window, cfg: Config, world: World)
    ensures AllRows(a + b, w, cfg, world).Ok? <==> AllRows(a, w, cfg, world).Ok? && AllRows(b, w, cfg, world).Ok?
    ensures AllRows(a + b, w, cfg, world).Ok? ==>
      AllRows(a + b, w, cfg, world).value == AllRows(a, w, cfg, world).value + AllRows(b, w, cfg, world).value
    ensures AllRows(a, w, cfg, world).Err? ==> AllRows(a + b, w, cfg, world) == AllRows(a, w, cfg, world)
    ensures AllRows(a, w, cfg, world).Ok? && AllRows(b, w, cfg, world).Err? ==>
      AllRows(a + b, w, cfg, world) == AllRows(b, w, cfg, world)
  {
    var ab := a + b;
    var ra := seq(|a|, i requires 0 <= i < |a| => RepoRows(a[i], w, cfg, world));
    var rb := seq(|b|, i requires 0 <= i < |b| => RepoRows(b[i], w, cfg, world));
    var rab := seq(|ab|, i requires 0 <= i < |ab| => RepoRows(ab[i], w, cfg, world));
    assert rab == ra + rb;
    AllRowsIsGather(a, w, cfg, world);
    AllRowsIsGather(b, w, cfg, world);
    AllRowsIsGather(ab, w, cfg, world);
    GatherConcat(ra, rb);
  }

  /** All or nothing: there is a result exactly when every specifier resolves. */
  lemma {:induction false} AllRowsOkIff(args: seq<string>, w: Window, cfg: Config, world: World)
    ensures AllRows(args, w, cfg, world).Ok? <==> forall i :: 0 <= i < |args| ==> RepoRows(args[i], w, cfg, world).Ok?
    decreases |args|
  {
    if args != [] {
      var init := args[..|args| - 1];
      AllRowsOkIff(init, w, cfg, world);
      assert forall i :: 0 <= i < |init| ==> init[i] == args[i];
    }
  }

  /** Every row produced lies in the window. */
  lemma {:induction false} AllRowsInWindow(args: seq<string>, w: Window, cfg: Config, world: World)
    requires AllRows(args, w, cfg, world).Ok?
    ensures forall r :: r in AllRows(args, w, cfg, world).value ==> InWindow(w, r.date)
    decreases |args|
  {
    if args != [] {
      AllRowsInWindow(args[..|args| - 1], w, cfg, world);
      var spec := ParseSpecifier(args[|args| - 1], cfg.defaultBranch);
      var repo := world[spec.path];
      RowsSound(repo.branches[spec.branch], w, BaseUrl(repo.remoteUrls[0]));
    }
  }

  lemma RowsStep(commits: seq<Commit>, j: nat, w: Window, baseUrl: string)
    requires j < |commits|
    ensures Rows(commits[..j + 1], w, baseUrl)
         == Rows(commits[..j], w, baseUrl)
            + (if InWindow(w, commits[j].authorDate) then [FormatRow(commits[j], baseUrl)] else [])
  {
    assert commits[..j + 1][..j] == commits[..j];
  }

  lemma AllRowsStep(args: seq<string>, i: nat, w: Window, cfg: Config, world: World)
    requires i < |args| && AllRows(args[..i], w, cfg, world).Ok?
    ensures RepoRows(args[i], w, cfg, world).Err? ==>
      AllRows(args[..i + 1], w, cfg, world) == RepoRows(args[i], w, cfg, world)
    ensures RepoRows(args[i], w, cfg, world).Ok? ==>
      AllRows(args[..i + 1], w, cfg, world)
      == Ok(AllRows(args[..i], w, cfg, world).value + RepoRows(args[i], w, cfg, world).value)
  {
    assert args[..i + 1][..i] == args[..i];
  }

  /** Once a prefix of the specifiers fails, the whole run fails with its error. */
  lemma AllRowsStops(args: seq<string>, i: nat, w: Window, cfg: Config, world: World)
    requires i <= |args| && AllRows(args[..i], w, cfg, world).Err?
    ensures AllRows(args, w, cfg, world) == AllRows(args[..i], w, cfg, world)
  {
    AllRowsConcat(args[..i], args[i..], w, cfg, world);
    assert args[..i] + args[i..] == args;
  }

  /** `parse_commits`: the nested loops over specifiers and commits. */
  method ParseCommits(args: seq<string>, w: Window, cfg: Config, world: World) returns (r: Result<seq<Row>, Error>)
    ensures r == AllRows(args, w, cfg, world)
  {
    var rows: seq<Row> := [];
    for i := 0 to |args|
      invariant AllRows(args[..i], w, cfg, world) == Ok(rows)
    {
      AllRowsStep(args, i, w, cfg, world);
      var spec := ParseSpecifier(args[i], cfg.defaultBranch);
      var failure: Option<Error> := None;
      if spec.path !in world {
        failure := Some(RepositoryNotFound(spec.path));
      } else if world[spec.path].userEmail.None? {
        failure := Some(MissingUserEmail(spec.path));
      } else if |world[spec.path].remoteUrls| == 0 {
        failure := Some(NoRemoteUrl(spec.path));
      } else if spec.branch !in world[spec.path].branches {
        failure := Some(UnknownBranch(spec.path, spec.branch));
      }
      if failure.Some? {
        assert RepoRows(args[i], w, cfg, world) == Err(failure.value);
        AllRowsStops(args, i + 1, w, cfg, world);
        return Err(failure.value);
      }
      var repo := world[spec.path];
      var baseUrl := BaseUrl(repo.remoteUrls[0]);
      var commits := repo.branches[spec.branch];
      assert RepoRows(args[i], w, cfg, world) == Ok(Rows(commits, w, baseUrl));
      ghost var before := rows;
      for j := 0 to |commits|
        invariant rows == before + Rows(commits[..j], w, baseUrl)
      {
        RowsStep(commits, j, w, baseUrl);
        var commit := commits[j];
        if !InWindow(w, commit.authorDate) {
          continue;
        }
        var id := ShortId(commit.hexsha);
        rows := rows + [Row(commit.authorDate, id, commit.summary, baseUrl + "/commit/" + id)];
      }
      assert commits[..|commits|] == commits;
    }
    assert args[..|args|] == args;
    return Ok(rows);
  }

  // ---------------------------------------------------------------------
  // The command: window selection, sorting and the table

  /** The window of the command line: `--month` overrides `--since` and `--until`. */
  function ResolveWindow(since: Option<Date>, until: Option<Date>, month: Option<Month>): (r: Result<Window, Error>)
    requires month.Some? ==> ValidMonth(month.value)
    requires month.Some? || (since.Some? && until.Some?)
    ensures month.None? ==> r == Ok(Window(since.value, until.value))
    ensures month.Some? ==> (r.Err? <==> month.value.year == MaxYear && month.value.month == 12)
    ensures month.Some? && r.Ok? ==>
      var m := month.value;
      r.value == Window(Date(m.year, m.month, 1), Date(m.year, m.month, DaysInMonth(m.year, m.month)))
  {
    if month.Some? then
      MonthWindowIsWholeMonth(month.value);
      match MonthWindow(month.value)
      case None => Err(DateOutOfRange)
      case Some(w) => Ok(w)
    else Ok(Window(since.value, until.value))
  }

  /** `main`: the report table, or the error that aborts the run. */
  method Extract(args: seq<string>, since: Option<Date>, until: Option<Date>, month: Option<Month>, cfg: Config, world: World)
    returns (r: Result<seq<seq<string>>, Error>)
    requires month.Some? ==> ValidMonth(month.value)
    requires month.Some? || (since.Some? && until.Some?)
    ensures var w := ResolveWindow(since, until, month);
      r.Ok? <==> w.Ok? && AllRows(args, w.value, cfg, world).Ok?
    ensures var w := ResolveWindow(since, until, month);
      r.Err? ==> r.error == if w.Err? then w.error else AllRows(args, w.value, cfg, world).error
    ensures var w := ResolveWindow(since, until, month);
      r.Ok? ==> r.value == Table(cfg, SortByDate(AllRows(args, w.value, cfg, world).value))
  {
    var w :- ResolveWindow(since, until, month);
    var rows :- ParseCommits(args, w, cfg, world);
    r := Ok(Table(cfg, SortByDate(rows)));
  }

  /** What the report holds: a header in the fixed column order, then the
      produced rows in date order, each date's rows in production order. */
  lemma ReportIsSortedProduction(args: seq<string>, w: Window, cfg: Config, world: World)
    requires AllRows(args, w, cfg, world).Ok?
    ensures var rows := AllRows(args, w, cfg, world).value;
      var sorted := SortByDate(rows);
      && Table(cfg, sorted)[0] == FieldNames(cfg)
      && SortedByDate(sorted)
      && multiset(sorted) == multiset(rows)
      && (forall d :: WithDate(sorted, d) == WithDate(rows, d))
      && (forall r :: r in sorted ==> InWindow(w, r.date))
  {
    var rows := AllRows(args, w, cfg, world).value;
    SortIsOrderedPermutation(rows);
    forall d ensures WithDate(SortByDate(rows), d) == WithDate(rows, d) {
      SortIsStable(rows, d);
    }
    AllRowsInWindow(args, w, cfg, world);
    forall r | r in SortByDate(rows) ensures r in rows {
      assert r in multiset(SortByDate(rows));
    }
  }
}
