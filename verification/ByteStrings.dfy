/** Rust strings as byte sequences, with the `split` and `join` the sources use. */
module ByteStrings {
  type byte = x: int | 0 <= x < 256

  type Bytes = seq<byte>

  const SLASH: byte := 0x2F
  const BACKSLASH: byte := 0x5C
  const DOT: byte := 0x2E
  const COLON: byte := 0x3A
  const PERCENT: byte := 0x25
  const AMPERSAND: byte := 0x26
  const EQUALS: byte := 0x3D

  lemma Characters()
    ensures SLASH == '/' as int && BACKSLASH == '\\' as int && DOT == '.' as int && COLON == ':' as int
    ensures PERCENT == '%' as int && AMPERSAND == '&' as int && EQUALS == '=' as int
  {
  }

  /** Put one byte in front of the first piece. */
  function Push(b: byte, pieces: seq<Bytes>): seq<Bytes>
    requires pieces != []
  {
    [[b] + pieces[0]] + pieces[1..]
  }

  /** `s.split(sep)`: always at least one piece, pieces may be empty. */
  function Split(s: Bytes, sep: byte): (pieces: seq<Bytes>)
    ensures pieces != []
  {
    if s == [] then [[]]
    else
      var rest := Split(s[1..], sep);
      if s[0] == sep then [[]] + rest else Push(s[0], rest)
  }

  /** `pieces.join(sep)`. */
  function Join(pieces: seq<Bytes>, sep: byte): Bytes {
    if pieces == [] then []
    else if |pieces| == 1 then pieces[0]
    else pieces[0] + [sep] + Join(pieces[1..], sep)
  }

  ghost predicate Free(pieces: seq<Bytes>, sep: byte) {
    forall i | 0 <= i < |pieces| :: sep !in pieces[i]
  }

  lemma PushFirst(head: Bytes, first: Bytes, rest: seq<Bytes>)
    requires head != []
    ensures Push(head[0], [head[1..] + first] + rest) == [head + first] + rest
  {
    assert [head[0]] + (head[1..] + first) == head + first;
    assert ([head[1..] + first] + rest)[1..] == rest;
  }

  lemma {:induction false} SplitPrepend(head: Bytes, s: Bytes, sep: byte)
    requires sep !in head
    ensures Split(head + s, sep) == [head + Split(s, sep)[0]] + Split(s, sep)[1..]
  {
    hide Push;
    if head == [] {
      assert [] + s == s && head + Split(s, sep)[0] == Split(s, sep)[0];
    } else {
      var first, rest := Split(s, sep)[0], Split(s, sep)[1..];
      SplitPrepend(head[1..], s, sep);
      assert (head + s)[1..] == head[1..] + s && (head + s)[0] == head[0];
      PushFirst(head, first, rest);
    }
  }

  /** Splitting undoes joining, as long as no piece holds the separator. */
  lemma {:induction false} SplitJoin(pieces: seq<Bytes>, sep: byte)
    requires pieces != [] && Free(pieces, sep)
    ensures Split(Join(pieces, sep), sep) == pieces
  {
    if |pieces| == 1 {
      SplitPrepend(pieces[0], [], sep);
      assert pieces[0] + [] == pieces[0];
      assert Split(pieces[0], sep) == [pieces[0]] == pieces;
    } else {
      var tail := Join(pieces[1..], sep);
      SplitJoin(pieces[1..], sep);
      assert Split([sep] + tail, sep) == [[]] + pieces[1..] by {
        assert ([sep] + tail)[1..] == tail;
      }
      SplitPrepend(pieces[0], [sep] + tail, sep);
      assert Join(pieces, sep) == pieces[0] + ([sep] + tail);
      assert pieces[0] + [] == pieces[0];
    }
  }

  lemma PushAppend(b: byte, left: seq<Bytes>, right: seq<Bytes>)
    requires left != []
    ensures Push(b, left + right) == Push(b, left) + right
  {
    assert (left + right)[1..] == left[1..] + right;
  }

  lemma AppendAssociates<T>(a: seq<T>, b: seq<T>, c: seq<T>)
    ensures a + (b + c) == a + b + c
  {
  }

  /** The pieces of a concatenation around one separator. */
  lemma {:induction false} SplitAround(a: Bytes, b: Bytes, sep: byte)
    ensures Split(a + [sep] + b, sep) == Split(a, sep) + Split(b, sep)
  {
    if a == [] {
      assert a + [sep] + b == [sep] + b;
      assert ([sep] + b)[1..] == b;
      assert Split(a, sep) == [[]];
    } else {
      SplitAround(a[1..], b, sep);
      var whole := a + [sep] + b;
      assert whole[1..] == a[1..] + [sep] + b && whole[0] == a[0];
      PushAppend(a[0], Split(a[1..], sep), Split(b, sep));
      AppendAssociates([[]], Split(a[1..], sep), Split(b, sep));
    }
  }

  lemma {:induction false} JoinAppend(a: seq<Bytes>, b: seq<Bytes>, sep: byte)
    requires a != [] && b != []
    ensures Join(a + b, sep) == Join(a, sep) + [sep] + Join(b, sep)
  {
    if |a| == 1 {
      assert (a + b)[1..] == b;
    } else {
      JoinAppend(a[1..], b, sep);
      assert (a + b)[1..] == a[1..] + b;
    }
  }

  /** A join of one or more non-empty pieces is non-empty. */
  lemma JoinNonEmpty(pieces: seq<Bytes>, sep: byte)
    requires pieces != [] && pieces[0] != []
    ensures Join(pieces, sep) != []
  {
  }

  /** The bytes of a join are those of its pieces, and the separator if there are two. */
  lemma {:induction false} JoinBytes(pieces: seq<Bytes>, sep: byte, b: byte)
    ensures b in Join(pieces, sep) <==> (exists i :: 0 <= i < |pieces| && b in pieces[i]) || (b == sep && |pieces| > 1)
  {
    if |pieces| > 1 {
      JoinBytes(pieces[1..], sep, b);
      assert forall i | 1 <= i < |pieces| :: pieces[i] == pieces[1..][i - 1];
      assert pieces[1] == pieces[1..][0];
    }
  }

  /** It begins with its first piece, and goes on with the separator. */
  lemma JoinStart(pieces: seq<Bytes>, sep: byte)
    requires pieces != []
    ensures pieces[0] <= Join(pieces, sep)
    ensures |pieces| > 1 ==> |Join(pieces, sep)| > |pieces[0]| && Join(pieces, sep)[|pieces[0]|] == sep
  {
  }
}
