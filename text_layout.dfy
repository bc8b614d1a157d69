/**
  The text layouts shared by the two table writers: items followed each by a terminator (the
  distance rows and their entries), items joined by a separator (the lines of the feature table), the
  split that reads such text back, and the decimal rendering of a line number.
*/
module TextLayout {

  /** Every item followed by `sep`: the layout of `print(x + " ")` per item, or of `print("\n")` per row. */
  function Terminated(items: seq<string>, sep: char): string {
    if |items| == 0 then "" else items[0] + [sep] + Terminated(items[1..], sep)
  }

  /** The items with `sep` between consecutive ones and none after the last. */
  function Joined(items: seq<string>, sep: char): string {
    if |items| == 0 then ""
    else if |items| == 1 then items[0]
    else items[0] + [sep] + Joined(items[1..], sep)
  }

  /** The position of the first `sep` in `s`, or |s| when there is none. */
  function IndexOf(s: string, sep: char): (i: nat)
    ensures i <= |s|
    ensures i < |s| <==> sep in s
  {
    if |s| == 0 then 0 else if s[0] == sep then 0 else 1 + IndexOf(s[1..], sep)
  }

  /** The pieces of `s` between the occurrences of `sep`; there is always one more piece than separators. */
  function Split(s: string, sep: char): (parts: seq<string>)
    ensures |parts| >= 1
    decreases |s|
  {
    var i := IndexOf(s, sep);
    if i == |s| then [s] else [s[..i]] + Split(s[i + 1..], sep)
  }

  /** No item contains `sep`. */
  predicate Free(items: seq<string>, sep: char) {
    forall i :: 0 <= i < |items| ==> sep !in items[i]
  }

  /** The first separator after a separator-free prefix is the one that ends it. */
  lemma {:induction false} IndexAfter(x: string, rest: string, sep: char)
    requires sep !in x
    ensures IndexOf(x + [sep] + rest, sep) == |x|
  {
    if |x| > 0 {
      IndexAfter(x[1..], rest, sep);
      assert (x + [sep] + rest)[1..] == x[1..] + [sep] + rest;
    }
  }

  /** Splitting at the separator that ends the first item gives the first item and the rest back. */
  lemma SplitFirst(x: string, rest: string, sep: char)
    requires sep !in x
    ensures Split(x + [sep] + rest, sep) == [x] + Split(rest, sep)
  {
    var s := x + [sep] + rest;
    IndexAfter(x, rest, sep);
    assert s[..|x|] == x;
    assert s[|x| + 1..] == rest;
  }

  /** Reading terminated items back gives the items and an empty piece after the last terminator. */
  lemma {:induction false} SplitTerminated(items: seq<string>, sep: char)
    requires Free(items, sep)
    ensures Split(Terminated(items, sep), sep) == items + [""]
  {
    if |items| > 0 {
      var t := Terminated(items[1..], sep);
      assert Free(items[1..], sep) by {
        forall i | 0 <= i < |items[1..]| ensures sep !in items[1..][i] {
          assert items[1..][i] == items[i + 1];
        }
      }
      SplitTerminated(items[1..], sep);
      SplitFirst(items[0], t, sep);
      assert items == [items[0]] + items[1..];
    }
  }

  /** Reading joined items back gives the items, as long as there is at least one. */
  lemma {:induction false} SplitJoined(items: seq<string>, sep: char)
    requires |items| > 0 && Free(items, sep)
    ensures Split(Joined(items, sep), sep) == items
  {
    if |items| > 1 {
      var t := Joined(items[1..], sep);
      assert Free(items[1..], sep) by {
        forall i | 0 <= i < |items[1..]| ensures sep !in items[1..][i] {
          assert items[1..][i] == items[i + 1];
        }
      }
      SplitJoined(items[1..], sep);
      SplitFirst(items[0], t, sep);
      assert items == [items[0]] + items[1..];
    } else {
      assert sep !in items[0];
    }
  }

  /** A character other than the terminator that no item contains does not occur in the layout. */
  lemma {:induction false} TerminatedAvoids(items: seq<string>, sep: char, c: char)
    requires c != sep && Free(items, c)
    ensures c !in Terminated(items, sep)
  {
    if |items| > 0 {
      assert Free(items[1..], c) by {
        forall i | 0 <= i < |items[1..]| ensures c !in items[1..][i] {
          assert items[1..][i] == items[i + 1];
        }
      }
      TerminatedAvoids(items[1..], sep, c);
      assert c !in items[0];
    }
  }

  /** Appending one item to the terminated layout appends the item and one terminator. */
  lemma {:induction false} TerminatedSnoc(items: seq<string>, x: string, sep: char)
    ensures Terminated(items + [x], sep) == Terminated(items, sep) + x + [sep]
  {
    if |items| > 0 {
      TerminatedSnoc(items[1..], x, sep);
      assert (items + [x])[1..] == items[1..] + [x];
    }
  }

  /** Appending one item to a non-empty joined layout adds a separator, then the item. */
  lemma {:induction false} JoinedSnoc(items: seq<string>, x: string, sep: char)
    requires |items| > 0
    ensures Joined(items + [x], sep) == Joined(items, sep) + [sep] + x
  {
    if |items| > 1 {
      JoinedSnoc(items[1..], x, sep);
      assert (items + [x])[1..] == items[1..] + [x];
    }
  }

  /** A decimal digit. */
  function Digit(d: nat): char
    requires d < 10
  {
    "0123456789"[d]
  }

  /** The value of a decimal digit character. */
  function DigitValue(c: char): nat {
    if '0' <= c <= '9' then (c as int - '0' as int) as nat else 0
  }

  /** The decimal rendering of a line number, as Java's string concatenation writes an int. */
  function Decimal(n: nat): (s: string)
    ensures |s| >= 1
    ensures forall k :: 0 <= k < |s| ==> '0' <= s[k] <= '9'
  {
    if n < 10 then [Digit(n)] else Decimal(n / 10) + [Digit(n % 10)]
  }

  /** The number a string of decimal digits stands for. */
  function ParseDecimal(s: string): nat {
    if |s| == 0 then 0 else ParseDecimal(s[..|s| - 1]) * 10 + DigitValue(s[|s| - 1])
  }

  /** Every digit reads back as its value. */
  lemma DigitRoundTrip(d: nat)
    requires d < 10
    ensures DigitValue(Digit(d)) == d
  {
  }

  /** A line number reads back from its decimal rendering. */
  lemma {:induction false} DecimalRoundTrip(n: nat)
    ensures ParseDecimal(Decimal(n)) == n
  {
    DigitRoundTrip(n % 10);
    if n >= 10 {
      DecimalRoundTrip(n / 10);
      var s := Decimal(n / 10) + [Digit(n % 10)];
      assert s[..|s| - 1] == Decimal(n / 10);
    } else {
      assert [Digit(n)][..0] == "";
    }
  }
}
