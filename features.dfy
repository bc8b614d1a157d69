/**
  The two input filters of `compute`: dropping the feature vectors of edge units, and reading the
  feature sequence, one feature name per line, skipping blank lines and comment lines.
  Whether a vector is an edge vector (`FeatureVector.isEdgeVector` at the index of the edge feature)
  is the parameter `isEdge`; the feature-sequence file is given as its sequence of lines.
*/
module Features {

  // ---------------------------------------------------------------- edge filter

  /** The vectors that are not edge vectors, in their original order. */
  function NonEdge<V>(vectors: seq<V>, isEdge: V -> bool): (kept: seq<V>)
    ensures |kept| <= |vectors|
  {
    if |vectors| == 0 then []
    else
      var prefix := NonEdge(vectors[..|vectors| - 1], isEdge);
      var v := vectors[|vectors| - 1];
      if isEdge(v) then prefix else prefix + [v]
  }

  /** The number of edge vectors. */
  function EdgeCount<V>(vectors: seq<V>, isEdge: V -> bool): nat {
    if |vectors| == 0 then 0
    else EdgeCount(vectors[..|vectors| - 1], isEdge) + (if isEdge(vectors[|vectors| - 1]) then 1 else 0)
  }

  /** Collects the non-edge vectors into a list, then reports how many were removed. */
  method RemoveEdges<V>(vectors: seq<V>, isEdge: V -> bool) returns (kept: seq<V>, removed: nat)
    ensures kept == NonEdge(vectors, isEdge)
    ensures removed == EdgeCount(vectors, isEdge)
  {
    kept := [];
    for i := 0 to |vectors|
      invariant kept == NonEdge(vectors[..i], isEdge)
    {
      assert vectors[..i + 1][..i] == vectors[..i];
      var next := vectors[i];
      if !isEdge(next) {
        kept := kept + [next];
      }
    }
    assert vectors[..|vectors|] == vectors;
    EdgesAccounted(vectors, isEdge);
    removed := |vectors| - |kept|;
  }

  /** Every vector is either kept or counted as removed. */
  lemma {:induction false} EdgesAccounted<V>(vectors: seq<V>, isEdge: V -> bool)
    ensures |NonEdge(vectors, isEdge)| + EdgeCount(vectors, isEdge) == |vectors|
  {
    if |vectors| > 0 {
      EdgesAccounted(vectors[..|vectors| - 1], isEdge);
    }
  }

  /** A vector is kept exactly when it occurs in the input and is not an edge vector. */
  lemma {:induction false} NonEdgeMembers<V>(vectors: seq<V>, isEdge: V -> bool, v: V)
    ensures v in NonEdge(vectors, isEdge) <==> v in vectors && !isEdge(v)
  {
    if |vectors| > 0 {
      var prefix := vectors[..|vectors| - 1];
      NonEdgeMembers(prefix, isEdge, v);
      assert vectors == prefix + [vectors[|vectors| - 1]];
    }
  }

  /** The filter keeps the order: filtering a concatenation concatenates the filtered parts. */
  lemma {:induction false} NonEdgeAppend<V>(a: seq<V>, b: seq<V>, isEdge: V -> bool)
    ensures NonEdge(a + b, isEdge) == NonEdge(a, isEdge) + NonEdge(b, isEdge)
  {
    if |b| > 0 {
      var b' := b[..|b| - 1];
      NonEdgeAppend(a, b', isEdge);
      assert (a + b)[..|a + b| - 1] == a + b';
    } else {
      assert a + b == a;
    }
  }

  // ---------------------------------------------------------------- Java's String.trim

  /** Java's trim removes every character up to and including U+0020 at either end. */
  predicate Blank(c: char) {
    c <= ' '
  }

  /** The text without its leading blank characters. */
  function TrimStart(s: string): string {
    if |s| > 0 && Blank(s[0]) then TrimStart(s[1..]) else s
  }

  /** The text without its trailing blank characters. */
  function TrimEnd(s: string): string {
    if |s| > 0 && Blank(s[|s| - 1]) then TrimEnd(s[..|s| - 1]) else s
  }

  /** `String.trim`: the text without blank characters at either end. */
  function Trim(s: string): string {
    TrimEnd(TrimStart(s))
  }

  /** TrimStart removes exactly the longest blank prefix. */
  lemma {:induction false} TrimStartSpec(s: string)
    ensures var r := TrimStart(s);
            |r| <= |s| && r == s[|s| - |r|..] &&
            (forall k :: 0 <= k < |s| - |r| ==> Blank(s[k])) &&
            (|r| > 0 ==> !Blank(r[0]))
  {
    if |s| > 0 && Blank(s[0]) {
      TrimStartSpec(s[1..]);
    }
  }

  /** TrimEnd removes exactly the longest blank suffix. */
  lemma {:induction false} TrimEndSpec(s: string)
    ensures var r := TrimEnd(s);
            |r| <= |s| && r == s[..|r|] &&
            (forall k :: |r| <= k < |s| ==> Blank(s[k])) &&
            (|r| > 0 ==> !Blank(r[|r| - 1]))
  {
    if |s| > 0 && Blank(s[|s| - 1]) {
      TrimEndSpec(s[..|s| - 1]);
    }
  }

  /** The trimmed text is empty exactly when the whole text is blank. */
  lemma TrimEmpty(s: string)
    ensures Trim(s) == "" <==> forall k :: 0 <= k < |s| ==> Blank(s[k])
  {
    var t := TrimStart(s);
    TrimStartSpec(s);
    TrimEndSpec(t);
    if Trim(s) != "" {
      assert |t| > 0;
      assert t[0] == s[|s| - |t|];
    }
  }

  /** Trimming twice is trimming once. */
  lemma TrimIdempotent(s: string)
    ensures Trim(Trim(s)) == Trim(s)
  {
    var r := Trim(s);
    TrimStartSpec(s);
    TrimEndSpec(TrimStart(s));
    TrimStartSpec(r);
    TrimEndSpec(TrimStart(r));
    if |r| > 0 {
      assert r[0] == TrimStart(s)[0];
    }
  }

  // ---------------------------------------------------------------- feature-sequence filter

  /** A line names a feature unless it is blank or starts with '#'; only the untrimmed line is
      tested for '#', so indented comments are kept. */
  predicate NamesFeature(line: string) {
    !(Trim(line) == "" || (|line| > 0 && line[0] == '#'))
  }

  /** The trimmed feature names of the lines that name a feature, in file order. */
  function FeatureNames(lines: seq<string>): (names: seq<string>)
    ensures |names| <= |lines|
  {
    if |lines| == 0 then []
    else
      var prefix := FeatureNames(lines[..|lines| - 1]);
      var line := lines[|lines| - 1];
      if NamesFeature(line) then prefix + [Trim(line)] else prefix
  }

  /** Reads the lines one at a time and collects the trimmed names. */
  method ReadFeatureSequence(lines: seq<string>) returns (features: seq<string>)
    ensures features == FeatureNames(lines)
  {
    features := [];
    var i := 0;
    while i < |lines|
      invariant 0 <= i <= |lines|
      invariant features == FeatureNames(lines[..i])
    {
      var line := lines[i];
      assert lines[..i + 1][..i] == lines[..i];
      if NamesFeature(line) {
        features := features + [Trim(line)];
      }
      i := i + 1;
    }
    assert lines[..|lines|] == lines;
  }

  /** No collected name is empty or has blank characters at its ends. */
  lemma {:induction false} NamesAreTrimmed(lines: seq<string>)
    ensures forall i :: 0 <= i < |FeatureNames(lines)| ==>
              FeatureNames(lines)[i] != "" && Trim(FeatureNames(lines)[i]) == FeatureNames(lines)[i]
  {
    if |lines| > 0 {
      NamesAreTrimmed(lines[..|lines| - 1]);
      TrimIdempotent(lines[|lines| - 1]);
    }
  }

  /** A name is collected exactly when some line names it. */
  lemma {:induction false} NamesMembers(lines: seq<string>, name: string)
    ensures name in FeatureNames(lines) <==>
            exists i :: 0 <= i < |lines| && NamesFeature(lines[i]) && Trim(lines[i]) == name
  {
    if |lines| > 0 {
      var prefix := lines[..|lines| - 1];
      NamesMembers(prefix, name);
      if name in FeatureNames(lines) && name !in FeatureNames(prefix) {
        assert NamesFeature(lines[|lines| - 1]) && Trim(lines[|lines| - 1]) == name;
      }
      if exists i :: 0 <= i < |lines| && NamesFeature(lines[i]) && Trim(lines[i]) == name {
        var i :| 0 <= i < |lines| && NamesFeature(lines[i]) && Trim(lines[i]) == name;
        if i < |lines| - 1 {
          assert prefix[i] == lines[i];
        }
      }
    }
  }

  /** The filter keeps the file order: reading a concatenation concatenates the names read. */
  lemma {:induction false} NamesAppend(a: seq<string>, b: seq<string>)
    ensures FeatureNames(a + b) == FeatureNames(a) + FeatureNames(b)
  {
    if |b| > 0 {
      var b' := b[..|b| - 1];
      NamesAppend(a, b');
      assert (a + b)[..|a + b| - 1] == a + b';
    } else {
      assert a + b == a;
    }
  }

  /** A single line gives its trimmed name exactly when it names a feature, and nothing otherwise. */
  lemma SingleLine(line: string)
    ensures FeatureNames([line]) == (if NamesFeature(line) then [Trim(line)] else [])
  {
    assert [line][..0] == [];
  }

  /** An indented comment is kept, with its '#'. */
  lemma IndentedCommentKept()
    ensures FeatureNames(["  #x"]) == ["#x"]
  {
    SingleLine("  #x");
    assert "  #x"[1..] == " #x" && " #x"[1..] == "#x";
    assert TrimStart("#x") == "#x";
    assert TrimStart("  #x") == "#x";
    assert "#x"[1] == 'x';
    assert TrimEnd("#x") == "#x";
  }

  /** A comment at the start of the line is skipped. */
  lemma CommentSkipped()
    ensures FeatureNames(["#x"]) == []
  {
    SingleLine("#x");
  }

  /** Blank lines give no name, and a name loses its trailing blanks. */
  lemma BlankLinesSkipped()
    ensures FeatureNames(["", " \t", "phoneme  "]) == ["phoneme"]
  {
    var lines := ["", " \t", "phoneme  "];
    assert Trim("") == "";
    assert " \t"[1..] == "\t" && "\t"[1..] == "";
    assert Trim(" \t") == "";
    assert TrimStart("phoneme  ") == "phoneme  ";
    assert "phoneme  "[..8] == "phoneme " && "phoneme "[..7] == "phoneme";
    assert TrimEnd("phoneme  ") == "phoneme";
    SingleLine("");
    NamesAppend([""], [" \t"]);
    SingleLine(" \t");
    NamesAppend(["", " \t"], ["phoneme  "]);
    SingleLine("phoneme  ");
    assert lines == ["", " \t"] + ["phoneme  "];
    assert ["", " \t"] == [""] + [" \t"];
  }
}
