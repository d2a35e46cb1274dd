/**
 * Go's `strings.Split` and `strings.Join` with a one-character separator,
 * on strings seen as `seq<char>`.
 */
module Strings {

  /** The number of occurrences of `c` in `s`. */
  function Occurrences(s: string, c: char): nat {
    multiset(s)[c]
  }

  /**
   * `strings.Split(s, [sep])`: the maximal pieces of `s` between separators.
   * Splitting always yields at least one piece (the empty string gives [""]),
   * and no piece contains the separator.
   */
  function Split(s: string, sep: char): (r: seq<string>)
    ensures |r| >= 1
    ensures forall i :: 0 <= i < |r| ==> sep !in r[i]
    decreases |s|
  {
    if |s| == 0 then [""]
    else
      var rest := Split(s[1..], sep);
      if s[0] == sep then [""] + rest
      else [[s[0]] + rest[0]] + rest[1..]
  }

  /** `strings.Join(pieces, [sep])`. */
  function Join(pieces: seq<string>, sep: char): string
    requires |pieces| >= 1
    decreases |pieces|
  {
    if |pieces| == 1 then pieces[0]
    else pieces[0] + [sep] + Join(pieces[1..], sep)
  }

  /** There is one piece more than there are separators. */
  lemma {:induction false} SplitCount(s: string, sep: char)
    ensures |Split(s, sep)| == Occurrences(s, sep) + 1
    decreases |s|
  {
    if |s| > 0 {
      assert s == [s[0]] + s[1..];
      SplitHead(s[0], s[1..], sep);
      SplitCount(s[1..], sep);
    }
  }

  /** Joining the pieces of a split with the same separator gives back the input. */
  lemma {:induction false} SplitJoin(s: string, sep: char)
    ensures Join(Split(s, sep), sep) == s
    decreases |s|
  {
    if |s| > 0 {
      var rest := Split(s[1..], sep);
      SplitJoin(s[1..], sep);
      if s[0] != sep && |rest| > 1 {
        var r := Split(s, sep);
        assert r[1..] == rest[1..];
        assert Join(rest, sep) == rest[0] + [sep] + Join(rest[1..], sep);
      }
    }
  }

  /** A string without the separator splits into itself alone. */
  lemma {:induction false} SplitWithoutSeparator(s: string, sep: char)
    requires sep !in s
    ensures Split(s, sep) == [s]
    decreases |s|
  {
    if |s| > 0 {
      SplitWithoutSeparator(s[1..], sep);
      assert [s[0]] + s[1..] == s;
    }
  }

  /** Splitting at an explicit separator concatenates the splits of both sides. */
  lemma {:induction false} SplitAtSeparator(a: string, b: string, sep: char)
    ensures Split(a + [sep] + b, sep) == Split(a, sep) + Split(b, sep)
    decreases |a|
  {
    if |a| == 0 {
      assert a + [sep] + b == [sep] + b;
      SplitHead(sep, b, sep);
    } else {
      var c, tail := a[0], a[1..];
      var t := tail + [sep] + b;
      assert a + [sep] + b == [c] + t;
      assert a == [c] + tail;
      SplitAtSeparator(tail, b, sep);
      SplitHead(c, t, sep);
      SplitHead(c, tail, sep);
      ConsPieces(c, Split(tail, sep), Split(b, sep), sep);
    }
  }

  /** The head-character step of `Split` commutes with appending further pieces. */
  lemma ConsPieces(c: char, left: seq<string>, right: seq<string>, sep: char)
    requires |left| >= 1
    ensures (if c == sep then [""] + (left + right)
             else [[c] + (left + right)[0]] + (left + right)[1..])
         == (if c == sep then [""] + left else [[c] + left[0]] + left[1..]) + right
  {
    if c != sep {
      assert (left + right)[1..] == left[1..] + right;
    }
  }

  /** One unfolding of `Split` on a string with a known first character. */
  lemma SplitHead(c: char, t: string, sep: char)
    ensures Split([c] + t, sep) ==
      if c == sep then [""] + Split(t, sep)
      else [[c] + Split(t, sep)[0]] + Split(t, sep)[1..]
  {
    assert ([c] + t)[1..] == t;
  }

  /** Pieces free of the separator are recovered by splitting their join. */
  lemma {:induction false} JoinSplit(pieces: seq<string>, sep: char)
    requires |pieces| >= 1
    requires forall i :: 0 <= i < |pieces| ==> sep !in pieces[i]
    ensures Split(Join(pieces, sep), sep) == pieces
    decreases |pieces|
  {
    SplitWithoutSeparator(pieces[0], sep);
    if |pieces| > 1 {
      JoinSplit(pieces[1..], sep);
      SplitAtSeparator(pieces[0], Join(pieces[1..], sep), sep);
      assert [pieces[0]] + pieces[1..] == pieces;
    }
  }
}
