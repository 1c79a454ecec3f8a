/**
  The records of the report: the configuration read from the environment,
  one commit of a history stream, the row formatted from it and the CSV
  table written at the end.
 */
module Commits {
  import opened Calendar

  /** Settings the program reads from environment variables at start-up. */
  datatype Config = Config(
    defaultBranch: string,
    dateLabel: string,
    idLabel: string,
    summaryLabel: string,
    linkLabel: string)

  /** The values used when none of the variables is set. */
  const DefaultConfig := Config("master", "Data", "Identyfikator", "Opis", "Odno\U{015B}nik")

  /** One commit as the history stream yields it: its author date as a
      calendar date, its full hexadecimal hash and the first line of its message. */
  datatype Commit = Commit(authorDate: Date, hexsha: string, summary: string)

  /** One output record: date, short identifier, summary and link. */
  datatype Row = Row(date: Date, id: string, summary: string, link: string)

  const ShortIdLength: nat := 7

  /** `hexsha[:7]`: the first seven characters, or the whole hash if shorter. */
  function ShortId(hexsha: string): (id: string)
    ensures |id| == if |hexsha| < ShortIdLength then |hexsha| else ShortIdLength
    ensures id <= hexsha
  {
    if |hexsha| <= ShortIdLength then hexsha else hexsha[..ShortIdLength]
  }

  function CommitLink(baseUrl: string, id: string): string {
    baseUrl + "/commit/" + id
  }

  /** The row for a commit of a repository whose web address is `baseUrl`. */
  function FormatRow(c: Commit, baseUrl: string): (r: Row)
    ensures r.date == c.authorDate && r.summary == c.summary
    ensures r.id <= c.hexsha && |r.id| == if |c.hexsha| < ShortIdLength then |c.hexsha| else ShortIdLength
    ensures r.link == baseUrl + "/commit/" + r.id
  {
    var id := ShortId(c.hexsha);
    Row(c.authorDate, id, c.summary, CommitLink(baseUrl, id))
  }

  /** The header, in the fixed column order date, identifier, summary, link. */
  function FieldNames(cfg: Config): seq<string> {
    [cfg.dateLabel, cfg.idLabel, cfg.summaryLabel, cfg.linkLabel]
  }

  function Cells(r: Row): seq<string> {
    [IsoFormat(r.date), r.id, r.summary, r.link]
  }

  /** The CSV table before quoting: the header first, then one line per row in order. */
  function Table(cfg: Config, rows: seq<Row>): (t: seq<seq<string>>)
    ensures |t| == |rows| + 1
    ensures t[0] == [cfg.dateLabel, cfg.idLabel, cfg.summaryLabel, cfg.linkLabel]
    ensures forall k :: 0 <= k < |rows| ==> t[k + 1] == [IsoFormat(rows[k].date), rows[k].id, rows[k].summary, rows[k].link]
  {
    var lines := seq(|rows|, k requires 0 <= k < |rows| => Cells(rows[k]));
    assert forall k :: 0 <= k < |rows| ==> ([FieldNames(cfg)] + lines)[k + 1] == lines[k];
    [FieldNames(cfg)] + lines
  }
}
