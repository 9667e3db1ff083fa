/**
  The SPDY name/value block convention for a header that carries several
  values: the values are joined into one string with a NUL character between
  them. Split is the reading of such a string character by character; Join
  is the folding. Joining the pieces of any value gives it back; splitting
  the join of a non-empty list of NUL-free pieces gives the list back.
 */
module SpdyValues {
  import opened Wrappers
  import opened StringUtil

  const NUL: char := '\0'

  predicate NulFree(s: string) {
    NUL !in s
  }

  /** The values a NUL-joined string stands for: the pieces between NULs,
      empty pieces included, so a string with k NULs has k + 1 pieces. */
  function Split(v: string): (pieces: seq<string>)
    ensures |pieces| >= 1
  {
    if v == [] then [[]]
    else if v[0] == NUL then [[]] + Split(v[1..])
    else
      var rest := Split(v[1..]);
      [[v[0]] + rest[0]] + rest[1..]
  }

  /** The pieces with a NUL between each two of them. */
  function Join(pieces: seq<string>): string {
    if |pieces| == 0 then []
    else if |pieces| == 1 then pieces[0]
    else pieces[0] + [NUL] + Join(pieces[1..])
  }

  function CountNul(v: string): nat {
    if v == [] then 0 else (if v[0] == NUL then 1 else 0) + CountNul(v[1..])
  }

  /** A string without a NUL is a single piece. */
  lemma {:induction false} SplitNulFree(v: string)
    requires NulFree(v)
    ensures Split(v) == [v]
  {
    if v != [] {
      assert v[0] != NUL;
      SplitNulFree(v[1..]);
      assert [v[0]] + v[1..] == v;
    }
  }

  /** The first NUL of a string ends its first piece. */
  lemma {:induction false} SplitAtNul(a: string, b: string)
    requires NulFree(a)
    ensures Split(a + [NUL] + b) == [a] + Split(b)
  {
    var v := a + [NUL] + b;
    if a == [] {
      assert v[1..] == b;
    } else {
      assert v[0] == a[0] && a[0] != NUL;
      assert v[1..] == a[1..] + [NUL] + b;
      SplitAtNul(a[1..], b);
      assert [a[0]] + a[1..] == a;
    }
  }

  /** A value with k NULs yields exactly k + 1 pieces. */
  lemma {:induction false} SplitCount(v: string)
    ensures |Split(v)| == CountNul(v) + 1
  {
    if v != [] {
      SplitCount(v[1..]);
    }
  }

  /** No piece contains the separator. */
  lemma {:induction false} SplitPiecesNulFree(v: string)
    ensures forall i :: 0 <= i < |Split(v)| ==> NulFree(Split(v)[i])
  {
    if v != [] {
      SplitPiecesNulFree(v[1..]);
      if v[0] != NUL {
        var rest := Split(v[1..]);
        assert NulFree(rest[0]);
        assert NulFree([v[0]] + rest[0]);
      }
    }
  }

  /** Joining the pieces of a value gives the value back. */
  lemma {:induction false} JoinSplit(v: string)
    ensures Join(Split(v)) == v
    decreases |v|
  {
    match Find(v, NUL, 0)
    case None =>
      assert NulFree(v);
      SplitNulFree(v);
    case Some(i) =>
      var a, b := v[..i], v[i + 1..];
      assert NulFree(a);
      assert v == a + [NUL] + b;
      SplitAtNul(a, b);
      JoinSplit(b);
      var rest := Split(b);
      assert ([a] + rest)[1..] == rest;
  }

  /** Splitting the join of a non-empty list of NUL-free pieces gives the
      pieces back, empty ones included. */
  lemma {:induction false} SplitJoin(pieces: seq<string>)
    requires |pieces| >= 1
    requires forall i :: 0 <= i < |pieces| ==> NulFree(pieces[i])
    ensures Split(Join(pieces)) == pieces
  {
    if |pieces| == 1 {
      SplitNulFree(pieces[0]);
    } else {
      SplitJoin(pieces[1..]);
      SplitAtNul(pieces[0], Join(pieces[1..]));
      assert [pieces[0]] + pieces[1..] == pieces;
    }
  }

  /** Folding one more value onto a non-empty list appends a NUL and the
      value to the joined string. */
  lemma {:induction false} JoinAppend(pieces: seq<string>, v: string)
    requires |pieces| >= 1
    ensures Join(pieces + [v]) == Join(pieces) + [NUL] + v
  {
    if |pieces| > 1 {
      JoinAppend(pieces[1..], v);
      assert (pieces + [v])[1..] == pieces[1..] + [v];
    }
  }

  /** Empty pieces are kept: an empty value is one empty piece, and a
      trailing NUL gives a trailing empty piece. */
  lemma SplitKeepsEmptyPieces(a: string)
    requires NulFree(a)
    ensures Split([]) == [[]]
    ensures Split([NUL]) == [[], []]
    ensures Split(a + [NUL]) == [a, []]
  {
    SplitAtNul([], []);
    SplitAtNul(a, []);
    assert a + [NUL] + [] == a + [NUL];
  }
}
