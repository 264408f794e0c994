/** Joining string pieces with a separator, and its inverse, splitting on one. */
module Strings {

  /**
   * `pieces.join(sep)` of Rust's slices: the pieces with one `sep` between neighbours,
   * so its length is the pieces' total plus one separator between each pair.
   */
  function JoinWith(pieces: seq<string>, sep: char): (r: string)
    ensures pieces != [] ==> |r| == TotalLength(pieces) + |pieces| - 1
  {
    if |pieces| == 0 then []
    else if |pieces| == 1 then pieces[0]
    else pieces[0] + [sep] + JoinWith(pieces[1..], sep)
  }

  /** Splits `s` at every occurrence of `sep`; always at least one piece, none containing `sep`. */
  function SplitOn(s: string, sep: char): (r: seq<string>)
    ensures |r| >= 1
    ensures forall i :: 0 <= i < |r| ==> sep !in r[i]
  {
    if s == [] then [[]]
    else
      var rest := SplitOn(s[1..], sep);
      if s[0] == sep then [[]] + rest
      else [[s[0]] + rest[0]] + rest[1..]
  }

  /** The total length of the pieces. */
  function TotalLength(pieces: seq<string>): nat
  {
    if pieces == [] then 0 else |pieces[0]| + TotalLength(pieces[1..])
  }

  /** Splitting a string without the separator gives that string alone. */
  lemma {:induction false} SplitWithoutSeparator(s: string, sep: char)
    requires sep !in s
    ensures SplitOn(s, sep) == [s]
  {
    if s != [] {
      SplitWithoutSeparator(s[1..], sep);
      assert [s[0]] + s[1..] == s;
    }
  }

  /** Splitting around one separator concatenates the splits of the two sides. */
  lemma {:induction false} SplitConcat(x: string, sep: char, y: string)
    ensures SplitOn(x + [sep] + y, sep) == SplitOn(x, sep) + SplitOn(y, sep)
  {
    var s := x + [sep] + y;
    if x == [] {
      assert s[0] == sep && s[1..] == y;
    } else {
      assert s[0] == x[0] && s[1..] == x[1..] + [sep] + y;
      SplitConcat(x[1..], sep, y);
    }
  }

  /** A separator-free head is split off as the first piece. */
  lemma SplitAtFirst(a: string, sep: char, b: string)
    requires sep !in a
    ensures SplitOn(a + [sep] + b, sep) == [a] + SplitOn(b, sep)
  {
    SplitConcat(a, sep, b);
    SplitWithoutSeparator(a, sep);
  }

  /** Splitting undoes joining, as long as no piece contains the separator. */
  lemma {:induction false} SplitJoin(pieces: seq<string>, sep: char)
    requires pieces != []
    requires forall i :: 0 <= i < |pieces| ==> sep !in pieces[i]
    ensures SplitOn(JoinWith(pieces, sep), sep) == pieces
  {
    if |pieces| == 1 {
      SplitWithoutSeparator(pieces[0], sep);
    } else {
      SplitJoin(pieces[1..], sep);
      SplitAtFirst(pieces[0], sep, JoinWith(pieces[1..], sep));
      assert pieces == [pieces[0]] + pieces[1..];
    }
  }

  /** Joining undoes splitting, for every string. */
  lemma {:induction false} JoinSplit(s: string, sep: char)
    ensures JoinWith(SplitOn(s, sep), sep) == s
  {
    if s != [] {
      var rest := SplitOn(s[1..], sep);
      JoinSplit(s[1..], sep);
      if s[0] == sep {
        assert JoinWith([[]] + rest, sep) == [] + [sep] + JoinWith(rest, sep);
      } else {
        var r := [[s[0]] + rest[0]] + rest[1..];
        if |rest| == 1 {
          assert r == [[s[0]] + rest[0]];
        } else {
          assert r[1..] == rest[1..];
          assert JoinWith(rest, sep) == rest[0] + [sep] + JoinWith(rest[1..], sep);
        }
      }
      assert [s[0]] + s[1..] == s;
    }
  }

  /** Extending the last piece extends the joined string by the same amount. */
  lemma {:induction false} JoinExtendLast(pieces: seq<string>, sep: char, more: string)
    requires pieces != []
    ensures JoinWith(pieces[..|pieces| - 1] + [pieces[|pieces| - 1] + more], sep) == JoinWith(pieces, sep) + more
  {
    var n := |pieces|;
    var ext := pieces[..n - 1] + [pieces[n - 1] + more];
    if n > 1 {
      JoinExtendLast(pieces[1..], sep, more);
      assert ext[1..] == pieces[1..][..n - 2] + [pieces[1..][n - 2] + more];
    }
  }

  /** Splitting a join followed by a separator and more text splits off the joined pieces. */
  lemma SplitJoinThen(pieces: seq<string>, sep: char, more: string)
    requires pieces != []
    requires forall i :: 0 <= i < |pieces| ==> sep !in pieces[i]
    ensures SplitOn(JoinWith(pieces, sep) + [sep] + more, sep) == pieces + SplitOn(more, sep)
  {
    SplitConcat(JoinWith(pieces, sep), sep, more);
    SplitJoin(pieces, sep);
  }
}
