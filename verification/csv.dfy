/** The CSV text both exports build (components/admin-dashboard.tsx:188-190,
    components/audit-logs.tsx:94-96): every row's cells joined with `,`,
    the rows joined with `\n`, with no quoting or escaping of any kind. */
module Csv {
  import opened Text

  /** The text of each row. */
  function Lines(rows: seq<seq<string>>): (ls: seq<string>)
    ensures |ls| == |rows|
    ensures forall i :: 0 <= i < |rows| ==> ls[i] == JoinWith(rows[i], ',')
  {
    if rows == [] then [] else [JoinWith(rows[0], ',')] + Lines(rows[1..])
  }

  /** `rows.map((row) => row.join(",")).join("\n")`. */
  function Render(rows: seq<seq<string>>): string {
    JoinWith(Lines(rows), '\n')
  }

  /** Reads a CSV text the plain way: lines at `\n`, cells at `,`. */
  function Parse(text: string): (rows: seq<seq<string>>)
  {
    ParseLines(Split(text, '\n'))
  }

  function ParseLines(ls: seq<string>): (rows: seq<seq<string>>)
    ensures |rows| == |ls|
    ensures forall i :: 0 <= i < |ls| ==> rows[i] == Split(ls[i], ',')
  {
    if ls == [] then [] else [Split(ls[0], ',')] + ParseLines(ls[1..])
  }

  /** A cell the format can carry: no comma and no line break. */
  predicate Plain(cell: string) {
    ',' !in cell && '\n' !in cell
  }

  lemma {:induction false} NotInJoin(parts: seq<string>, sep: char, c: char)
    requires c != sep
    requires forall i :: 0 <= i < |parts| ==> c !in parts[i]
    ensures c !in JoinWith(parts, sep)
  {
    if |parts| > 1 {
      NotInJoin(parts[1..], sep, c);
      assert c !in parts[0];
    }
  }

  /** With plain cells and no empty row, reading the export back gives the
      rows it was made from. */
  lemma {:induction false} RenderParse(rows: seq<seq<string>>)
    requires |rows| >= 1
    requires forall i :: 0 <= i < |rows| ==> |rows[i]| >= 1
    requires forall i, j :: 0 <= i < |rows| && 0 <= j < |rows[i]| ==> Plain(rows[i][j])
    ensures Parse(Render(rows)) == rows
  {
    var ls := Lines(rows);
    forall i | 0 <= i < |ls| ensures '\n' !in ls[i] {
      NotInJoin(rows[i], ',', '\n');
    }
    SplitJoin(ls, '\n');
    forall i | 0 <= i < |rows| ensures Split(ls[i], ',') == rows[i] {
      SplitJoin(rows[i], ',');
    }
  }

  /** A header over data rows reads back as written when every cell is
      plain and no row is empty. */
  lemma HeaderedRenderParse(header: seq<string>, body: seq<seq<string>>)
    requires |header| >= 1 && forall j :: 0 <= j < |header| ==> Plain(header[j])
    requires forall i :: 0 <= i < |body| ==> |body[i]| >= 1
    requires forall i, j :: 0 <= i < |body| && 0 <= j < |body[i]| ==> Plain(body[i][j])
    ensures Parse(Render([header] + body)) == [header] + body
  {
    var rows := [header] + body;
    forall i, j | 0 <= i < |rows| && 0 <= j < |rows[i]| ensures Plain(rows[i][j]) {
      if i > 0 {
        assert rows[i] == body[i - 1];
      }
    }
    RenderParse(rows);
  }

  /** Every comma inside a cell adds a field for any reader that splits at
      commas: the row no longer lines up with its header. */
  lemma CommaShiftsFields(cells: seq<string>)
    requires |cells| >= 1
    ensures |Split(JoinWith(cells, ','), ',')| == |cells| + OccurrencesIn(cells, ',')
  {
    SplitCount(JoinWith(cells, ','), ',');
    JoinOccurrences(cells, ',');
  }
}
