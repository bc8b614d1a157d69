/**
  The text file of a distance matrix (end of `buildAndDumpDistanceTables`): one line per row, and
  every entry of the row written as its text followed by one space. The rendering of one entry (Java's
  `(float)` cast and `Float.toString`) is the parameter `fmt`. Java shows a zero-variance entry as `NaN`, and
  a single-frame entry as `Infinity` or, when its cost is 0, as `NaN`; `SingleFrames(cost)` keeps that cost.
*/
module MatrixText {
  import opened TextLayout
  import opened DistanceMatrix
  import PooledVariance
  import opened Wrappers

  /** The texts of the entries of one row. */
  function Rendered(row: seq<Entry>, fmt: Entry -> string): (texts: seq<string>)
    ensures |texts| == |row|
  {
    seq(|row|, j requires 0 <= j < |row| => fmt(row[j]))
  }

  /** The lines of the file, each without its newline. */
  function RowTexts(rows: seq<seq<Entry>>, fmt: Entry -> string): (lines: seq<string>)
    ensures |lines| == |rows|
  {
    seq(|rows|, i requires 0 <= i < |rows| => Terminated(Rendered(rows[i], fmt), ' '))
  }

  /** The whole file: each line followed by a newline. */
  function MatrixText(rows: seq<seq<Entry>>, fmt: Entry -> string): string {
    Terminated(RowTexts(rows, fmt), '\n')
  }

  /** The rows of a matrix held in an array. */
  function Cells(dist: array2<Entry>): (rows: seq<seq<Entry>>)
    reads dist
    ensures |rows| == dist.Length0
    ensures forall i :: 0 <= i < |rows| ==> |rows[i]| == dist.Length1
    ensures forall i, j :: 0 <= i < dist.Length0 && 0 <= j < dist.Length1 ==> rows[i][j] == dist[i, j]
  {
    seq(dist.Length0, i requires 0 <= i < dist.Length0 reads dist =>
      seq(dist.Length1, j requires 0 <= j < dist.Length1 reads dist => dist[i, j]))
  }

  /** Appends row `i` to the file, entry by entry, as the inner print loop does. */
  method WriteRow(dist: array2<Entry>, fmt: Entry -> string, i: nat, before: string) returns (text: string)
    requires i < dist.Length0
    ensures text == before + Terminated(Rendered(Cells(dist)[i], fmt), ' ')
  {
    ghost var texts := Rendered(Cells(dist)[i], fmt);
    text := before;
    for j := 0 to dist.Length1
      invariant text == before + Terminated(texts[..j], ' ')
    {
      TerminatedSnoc(texts[..j], texts[j], ' ');
      assert texts[..j + 1] == texts[..j] + [texts[j]];
      text := text + (fmt(dist[i, j]) + " ");
    }
    assert texts[..dist.Length1] == texts;
  }

  /** Writes the matrix row by row, each row followed by a newline, as the outer print loop does. */
  method WriteMatrix(dist: array2<Entry>, fmt: Entry -> string) returns (text: string)
    ensures text == MatrixText(Cells(dist), fmt)
  {
    ghost var lines := RowTexts(Cells(dist), fmt);
    text := "";
    for i := 0 to dist.Length0
      invariant text == Terminated(lines[..i], '\n')
    {
      text := WriteRow(dist, fmt, i, text);
      TerminatedSnoc(lines[..i], lines[i], '\n');
      assert lines[..i + 1] == lines[..i] + [lines[i]];
      text := text + "\n";
    }
    assert lines[..dist.Length0] == lines;
  }

  /** The file reads back: one line per row, then an empty piece after the last newline, and each line
      splits at its spaces into the entry texts and an empty piece after the trailing space. */
  lemma MatrixTextParses(rows: seq<seq<Entry>>, fmt: Entry -> string)
    requires forall e :: ' ' !in fmt(e) && '\n' !in fmt(e)
    ensures var lines := Split(MatrixText(rows, fmt), '\n');
            |lines| == |rows| + 1 && lines[|rows|] == "" &&
            forall i :: 0 <= i < |rows| ==> Split(lines[i], ' ') == Rendered(rows[i], fmt) + [""]
  {
    var lines := RowTexts(rows, fmt);
    forall i | 0 <= i < |rows| ensures '\n' !in lines[i] && Split(lines[i], ' ') == Rendered(rows[i], fmt) + [""] {
      TerminatedAvoids(Rendered(rows[i], fmt), ' ', '\n');
      SplitTerminated(Rendered(rows[i], fmt), ' ');
    }
    SplitTerminated(lines, '\n');
  }

  /** The final matrix as rows of entries. */
  function Matrix(melCep: seq<seq<seq<real>>>, sigma2: Option<seq<real>>): (rows: seq<seq<Entry>>)
    requires Units(melCep, sigma2)
    ensures |rows| == |melCep| && forall a :: 0 <= a < |rows| ==> |rows[a]| == |melCep|
  {
    seq(|melCep|, a requires 0 <= a < |melCep| =>
      seq(|melCep|, b requires 0 <= b < |melCep| => MatrixEntry(melCep, sigma2, a, b)))
  }

  /** `buildAndDumpDistanceTables` for one leaf: the pooled variance, the matrix, then its text. */
  method BuildAndDumpDistanceTables(melCep: seq<seq<seq<real>>>, order: nat, fmt: Entry -> string)
    returns (text: string)
    requires PooledVariance.Coefficients(melCep, order)
    ensures PooledVariance.Width(PooledVariance.AllFrames(melCep), order)
    ensures Units(melCep, PooledVariance.Variance(PooledVariance.AllFrames(melCep), order))
    ensures text == MatrixText(Matrix(melCep, PooledVariance.Variance(PooledVariance.AllFrames(melCep), order)), fmt)
  {
    var dist := DistanceTable(melCep, order);
    text := WriteMatrix(dist, fmt);
    ghost var rows := Matrix(melCep, PooledVariance.Variance(PooledVariance.AllFrames(melCep), order));
    ghost var cells := Cells(dist);
    forall a | 0 <= a < |rows| ensures cells[a] == rows[a] {
      assert forall b :: 0 <= b < |rows| ==> cells[a][b] == rows[a][b];
    }
    assert cells == rows;
  }
}
