/**
  The feature-vector file (`dumpFeatureVectors`): line i holds the decimal index i, one space and the
  feature string of vector i; consecutive lines are separated by a newline and the last line has none.
  The rendering of a vector (`FeatureDefinition.toFeatureString`) is the parameter `show`.
*/
module FeatureTable {
  import opened TextLayout

  /** The lines of the file, each without its newline. */
  function Lines<V>(vectors: seq<V>, show: V -> string): (lines: seq<string>)
    ensures |lines| == |vectors|
  {
    seq(|vectors|, i requires 0 <= i < |vectors| => Decimal(i) + " " + show(vectors[i]))
  }

  /** The whole file. */
  function TableText<V>(vectors: seq<V>, show: V -> string): string {
    Joined(Lines(vectors, show), '\n')
  }

  /** Prints every line and, unless it is the last one, a newline after it. */
  method DumpFeatureVectors<V>(vectors: seq<V>, show: V -> string) returns (text: string)
    ensures text == TableText(vectors, show)
  {
    ghost var lines := Lines(vectors, show);
    var n := |vectors|;
    text := "";
    for i := 0 to n
      invariant text == Joined(lines[..i], '\n') + (if 0 < i < n then "\n" else "")
    {
      if i > 0 {
        JoinedSnoc(lines[..i], lines[i], '\n');
      }
      assert lines[..i + 1] == lines[..i] + [lines[i]];
      text := text + (Decimal(i) + " " + show(vectors[i]));
      if i + 1 != n {
        text := text + "\n";
      }
    }
    assert lines[..n] == lines;
  }

  /** The file of no vectors is empty. */
  lemma EmptyTable<V>(show: V -> string)
    ensures TableText([], show) == ""
  {
  }

  /** Splitting a line at its first space gives back the index and the feature string. */
  lemma LineParses<V>(vectors: seq<V>, show: V -> string, i: nat)
    requires i < |vectors|
    ensures var line := Lines(vectors, show)[i];
            var k := IndexOf(line, ' ');
            k < |line| && ParseDecimal(line[..k]) == i && line[k + 1..] == show(vectors[i])
  {
    var line := Lines(vectors, show)[i];
    assert ' ' !in Decimal(i) by {
      forall t | 0 <= t < |Decimal(i)| ensures Decimal(i)[t] != ' ' { }
    }
    IndexAfter(Decimal(i), show(vectors[i]), ' ');
    assert line[..|Decimal(i)|] == Decimal(i);
    assert line[|Decimal(i)| + 1..] == show(vectors[i]);
    DecimalRoundTrip(i);
  }

  /** With feature strings free of newlines, the file splits into exactly one line per vector, and
      line i starts with the index i. */
  lemma TableParses<V>(vectors: seq<V>, show: V -> string)
    requires |vectors| > 0
    requires forall v :: '\n' !in show(v)
    ensures var lines := Split(TableText(vectors, show), '\n');
            lines == Lines(vectors, show) &&
            forall i :: 0 <= i < |lines| ==>
              var k := IndexOf(lines[i], ' ');
              k < |lines[i]| && ParseDecimal(lines[i][..k]) == i && lines[i][k + 1..] == show(vectors[i])
  {
    var lines := Lines(vectors, show);
    forall i | 0 <= i < |lines| ensures '\n' !in lines[i] {
      assert '\n' !in Decimal(i) by {
        forall t | 0 <= t < |Decimal(i)| ensures Decimal(i)[t] != '\n' { }
      }
      assert '\n' !in show(vectors[i]);
    }
    SplitJoined(lines, '\n');
    forall i | 0 <= i < |lines|
      ensures var k := IndexOf(lines[i], ' ');
              k < |lines[i]| && ParseDecimal(lines[i][..k]) == i && lines[i][k + 1..] == show(vectors[i])
    {
      LineParses(vectors, show, i);
    }
  }
}
