/** The canonical query string of sigv4.rs. */
module SigV4 {
  import opened ByteStrings
  import opened PercentCoding
  import Utf8

  type Pair = (Bytes, Bytes)

  // ---------------------------------------------------------------------------
  // Byte-wise lexicographic order
  // ---------------------------------------------------------------------------

  predicate AtMost(a: Bytes, b: Bytes) {
    a == [] || (b != [] && (a[0] < b[0] || (a[0] == b[0] && AtMost(a[1..], b[1..]))))
  }

  predicate PairAtMost(a: Pair, b: Pair) {
    if a.0 == b.0 then AtMost(a.1, b.1) else AtMost(a.0, b.0)
  }

  lemma {:induction false} AtMostTotal(a: Bytes, b: Bytes)
    ensures AtMost(a, b) || AtMost(b, a)
  {
    if a != [] && b != [] && a[0] == b[0] { AtMostTotal(a[1..], b[1..]); }
  }

  lemma {:induction false} AtMostAntisymmetric(a: Bytes, b: Bytes)
    requires AtMost(a, b) && AtMost(b, a)
    ensures a == b
  {
    if a != [] && b != [] {
      AtMostAntisymmetric(a[1..], b[1..]);
      assert a == [a[0]] + a[1..] && b == [b[0]] + b[1..];
    }
  }

  lemma {:induction false} AtMostTransitive(a: Bytes, b: Bytes, c: Bytes)
    requires AtMost(a, b) && AtMost(b, c)
    ensures AtMost(a, c)
  {
    if a != [] && a[0] == b[0] == c[0] { AtMostTransitive(a[1..], b[1..], c[1..]); }
  }

  lemma {:induction false} FirstDifference(a: Bytes, b: Bytes) returns (i: nat)
    requires AtMost(a, b) && !(a <= b)
    ensures i < |a| && i < |b| && a[..i] == b[..i] && a[i] < b[i]
  {
    if a[0] != b[0] { return 0; }
    assert a == [a[0]] + a[1..] && b == [b[0]] + b[1..];
    var j := FirstDifference(a[1..], b[1..]);
    i := j + 1;
    assert a[..i] == [a[0]] + a[1..][..j] && b[..i] == [b[0]] + b[1..][..j];
  }

  lemma {:induction false} SmallerIsAtMost(a: Bytes, b: Bytes, i: nat)
    requires i <= |a| && i <= |b| && a[..i] == b[..i] && (i == |a| || (i < |b| && a[i] < b[i]))
    ensures AtMost(a, b)
  {
    if i > 0 {
      assert a[0] == a[..i][0] == b[0] && a[1..][..i - 1] == a[..i][1..] && b[1..][..i - 1] == b[..i][1..];
      SmallerIsAtMost(a[1..], b[1..], i - 1);
    }
  }

  /** Byte-wise lexical order: a prefix comes first, otherwise the first byte that differs decides. */
  lemma AtMostIsLexical(a: Bytes, b: Bytes)
    ensures AtMost(a, b) <==> a <= b || exists i :: 0 <= i < |a| && i < |b| && a[..i] == b[..i] && a[i] < b[i]
  {
    hide AtMost;
    if AtMost(a, b) && !(a <= b) {
      var i := FirstDifference(a, b);
    }
    if a <= b {
      assert a[..|a|] == a == b[..|a|];
      SmallerIsAtMost(a, b, |a|);
    }
    forall i | 0 <= i < |a| && i < |b| && a[..i] == b[..i] && a[i] < b[i] ensures AtMost(a, b) {
      SmallerIsAtMost(a, b, i);
    }
  }

  lemma PairOrder(a: Pair, b: Pair, c: Pair)
    ensures PairAtMost(a, b) || PairAtMost(b, a)
    ensures PairAtMost(a, b) && PairAtMost(b, a) ==> a == b
    ensures PairAtMost(a, b) && PairAtMost(b, c) ==> PairAtMost(a, c)
  {
    AtMostTotal(a.0, b.0);
    AtMostTotal(a.1, b.1);
    if AtMost(a.0, b.0) && AtMost(b.0, a.0) { AtMostAntisymmetric(a.0, b.0); }
    if AtMost(a.1, b.1) && AtMost(b.1, a.1) { AtMostAntisymmetric(a.1, b.1); }
    if AtMost(a.0, b.0) && AtMost(b.0, c.0) {
      AtMostTransitive(a.0, b.0, c.0);
      if a.0 == c.0 { AtMostAntisymmetric(a.0, b.0); }
    }
    if AtMost(a.1, b.1) && AtMost(b.1, c.1) { AtMostTransitive(a.1, b.1, c.1); }
  }

  // ---------------------------------------------------------------------------
  // Sorting
  // ---------------------------------------------------------------------------

  ghost predicate Sorted(s: seq<Pair>) {
    forall i, j | 0 <= i < j < |s| :: PairAtMost(s[i], s[j])
  }

  function InsertSorted(p: Pair, s: seq<Pair>): seq<Pair> {
    if s == [] || PairAtMost(p, s[0]) then [p] + s else [s[0]] + InsertSorted(p, s[1..])
  }

  function Sort(s: seq<Pair>): seq<Pair> {
    if s == [] then [] else InsertSorted(s[0], Sort(s[1..]))
  }

  lemma {:induction false} InsertSortedSorts(p: Pair, s: seq<Pair>)
    requires Sorted(s)
    ensures Sorted(InsertSorted(p, s)) && multiset(InsertSorted(p, s)) == multiset{p} + multiset(s)
  {
    hide PairAtMost;
    if s == [] {
    } else if PairAtMost(p, s[0]) {
      forall i | 0 <= i < |s| ensures PairAtMost(p, s[i]) { PairOrder(p, s[0], s[i]); }
    } else {
      InsertSortedSorts(p, s[1..]);
      assert s == [s[0]] + s[1..];
      PairOrder(p, s[0], p);
      var rest := InsertSorted(p, s[1..]);
      forall i | 0 <= i < |rest| ensures PairAtMost(s[0], rest[i]) {
        assert rest[i] in multiset(rest);
      }
    }
  }

  lemma {:induction false} SortSorts(s: seq<Pair>)
    ensures Sorted(Sort(s)) && multiset(Sort(s)) == multiset(s)
  {
    if s != [] {
      SortSorts(s[1..]);
      InsertSortedSorts(s[0], Sort(s[1..]));
      assert s == [s[0]] + s[1..];
    }
  }

  lemma SortedHead(s: seq<Pair>, p: Pair)
    requires Sorted(s) && p in multiset(s)
    ensures s != [] && PairAtMost(s[0], p)
  {
    var i :| 0 <= i < |s| && s[i] == p;
    PairOrder(s[0], s[0], s[0]);
  }

  lemma DropHead<T>(s: seq<T>)
    requires s != []
    ensures multiset(s[1..]) == multiset(s) - multiset{s[0]}
  {
    assert s == [s[0]] + s[1..];
  }

  /** Sorted lists with the same members are the same list, so any sort gives this result. */
  lemma {:induction false} SortedIsUnique(a: seq<Pair>, b: seq<Pair>)
    requires Sorted(a) && Sorted(b) && multiset(a) == multiset(b)
    ensures a == b
  {
    assert |a| == |multiset(a)| == |b|;
    if a != [] {
      assert a[0] in multiset(a) && b[0] in multiset(b);
      SortedHead(a, b[0]);
      SortedHead(b, a[0]);
      PairOrder(a[0], b[0], a[0]);
      DropHead(a);
      DropHead(b);
      SortedIsUnique(a[1..], b[1..]);
      assert a == [a[0]] + a[1..] && b == [b[0]] + b[1..];
    }
  }

  // ---------------------------------------------------------------------------
  // The canonical query
  // ---------------------------------------------------------------------------

  /** `split_once('=')`, the value empty when there is no `=`. */
  function SplitPair(piece: Bytes): Pair {
    if piece == [] then ([], [])
    else if piece[0] == EQUALS then ([], piece[1..])
    else var rest := SplitPair(piece[1..]); ([piece[0]] + rest.0, rest.1)
  }

  /** `percent_decode`: bytes that are not UTF-8 become U+FFFD. */
  function Decode(s: Bytes): Bytes {
    Utf8.Lossy(DecodeLenient(s))
  }

  function DecodePair(piece: Bytes): Pair {
    (Decode(SplitPair(piece).0), Decode(SplitPair(piece).1))
  }

  /** The parameters of a list of pieces; empty pieces carry none. */
  function Parameters(pieces: seq<Bytes>): seq<Pair> {
    if pieces == [] then []
    else if pieces[0] == [] then Parameters(pieces[1..])
    else [DecodePair(pieces[0])] + Parameters(pieces[1..])
  }

  /** The decoded (key, value) pairs of a raw query. */
  function QueryParameters(raw: Bytes): seq<Pair> {
    Parameters(Split(raw, AMPERSAND))
  }

  function EncodePair(p: Pair): Pair {
    (Encode(p.0, false), Encode(p.1, false))
  }

  function EncodePairs(pairs: seq<Pair>): seq<Pair> {
    if pairs == [] then [] else [EncodePair(pairs[0])] + EncodePairs(pairs[1..])
  }

  function Show(p: Pair): Bytes {
    p.0 + [EQUALS] + p.1
  }

  function ShowAll(pairs: seq<Pair>): seq<Bytes> {
    if pairs == [] then [] else [Show(pairs[0])] + ShowAll(pairs[1..])
  }

  function CanonicalOf(parameters: seq<Pair>): Bytes {
    Join(ShowAll(Sort(EncodePairs(parameters))), AMPERSAND)
  }

  function Canonical(raw: Bytes): Bytes {
    CanonicalOf(QueryParameters(raw))
  }

  lemma ParametersStep(pieces: seq<Bytes>, done: seq<Pair>)
    requires pieces != [] && pieces[0] != []
    ensures done + EncodePairs(Parameters(pieces))
         == done + [EncodePair(DecodePair(pieces[0]))] + EncodePairs(Parameters(pieces[1..]))
  {
    hide DecodePair, EncodePair;
    var first := [EncodePair(DecodePair(pieces[0]))];
    assert Parameters(pieces)[1..] == Parameters(pieces[1..]);
    AppendAssociates(done, first, EncodePairs(Parameters(pieces[1..])));
  }

  method CanonicalQueryString(raw: Bytes) returns (canonical: Bytes)
    ensures canonical == Canonical(raw)
  {
    if raw == [] {
      assert Split(raw, AMPERSAND) == [[]];
      assert Parameters([[]]) == [];
      return [];
    }
    var pieces := Split(raw, AMPERSAND);
    var pairs: seq<Pair> := [];
    for i := 0 to |pieces|
      invariant pairs + EncodePairs(Parameters(pieces[i..])) == EncodePairs(QueryParameters(raw))
    {
      assert pieces[i..][1..] == pieces[i + 1..];
      if pieces[i] == [] { continue; }
      var (key, value) := SplitPair(pieces[i]);
      var keyBytes := DecodeLenientBytes(key);
      var valueBytes := DecodeLenientBytes(value);
      var keyCode := EncodeBytes(Utf8.Lossy(keyBytes), false);
      var valueCode := EncodeBytes(Utf8.Lossy(valueBytes), false);
      ParametersStep(pieces[i..], pairs);
      pairs := pairs + [(keyCode, valueCode)];
    }
    assert pieces[|pieces|..] == [] && pairs + [] == pairs;
    pairs := Sort(pairs);
    canonical := Join(ShowAll(pairs), AMPERSAND);
  }

  // ---------------------------------------------------------------------------
  // A complete normal form
  // ---------------------------------------------------------------------------

  lemma EncodedIsSafe(s: Bytes)
    ensures EQUALS !in Encode(s, false) && AMPERSAND !in Encode(s, false)
  {
    if EQUALS in Encode(s, false) { EncodeAlphabet(s, false, EQUALS); }
    if AMPERSAND in Encode(s, false) { EncodeAlphabet(s, false, AMPERSAND); }
  }

  /** The pair behind an encoded pair. */
  function Undo(e: Pair): Pair {
    (DecodeLenient(e.0), DecodeLenient(e.1))
  }

  /** Something the encoder can produce. */
  predicate IsCode(e: Pair) {
    EncodePair(Undo(e)) == e
  }

  lemma UndoEncode(p: Pair)
    ensures Undo(EncodePair(p)) == p && IsCode(EncodePair(p))
  {
    DecodeLenientEncode(p.0, false);
    DecodeLenientEncode(p.1, false);
  }

  lemma {:induction false} SplitShown(key: Bytes, value: Bytes)
    requires EQUALS !in key
    ensures SplitPair(Show((key, value))) == (key, value)
  {
    var shown := Show((key, value));
    if key == [] {
      assert shown[1..] == value;
    } else {
      SplitShown(key[1..], value);
      assert shown[1..] == Show((key[1..], value));
      assert [key[0]] + key[1..] == key;
    }
  }

  ghost predicate AllCodes(pairs: seq<Pair>) {
    forall e | e in pairs :: IsCode(e)
  }

  lemma {:induction false} EncodePairsCodes(pairs: seq<Pair>)
    ensures AllCodes(EncodePairs(pairs))
  {
    if pairs != [] {
      EncodePairsCodes(pairs[1..]);
      UndoEncode(pairs[0]);
    }
  }

  lemma SameMembers<T>(a: seq<T>, b: seq<T>)
    requires multiset(a) == multiset(b)
    ensures forall e :: e in a <==> e in b
  {
    forall e ensures e in a <==> e in b {
      assert e in a <==> e in multiset(a);
      assert e in b <==> e in multiset(b);
    }
  }

  lemma {:induction false} ShownPieces(pairs: seq<Pair>)
    requires AllCodes(pairs)
    ensures |ShowAll(pairs)| == |pairs| && Free(ShowAll(pairs), AMPERSAND)
    ensures forall i | 0 <= i < |pairs| :: ShowAll(pairs)[i] != [] && SplitPair(ShowAll(pairs)[i]) == pairs[i]
  {
    if pairs != [] {
      ShownPieces(pairs[1..]);
      var p := Undo(pairs[0]);
      assert IsCode(pairs[0]);
      EncodedIsSafe(p.0);
      EncodedIsSafe(p.1);
      SplitShown(pairs[0].0, pairs[0].1);
    }
  }

  /** The joined text gives back the list of encoded pairs. */
  lemma ShownText(a: seq<Pair>, b: seq<Pair>)
    requires AllCodes(a) && AllCodes(b)
    requires Join(ShowAll(a), AMPERSAND) == Join(ShowAll(b), AMPERSAND)
    ensures a == b
  {
    ShownPieces(a);
    ShownPieces(b);
    if a != [] { SplitJoin(ShowAll(a), AMPERSAND); JoinNonEmpty(ShowAll(a), AMPERSAND); }
    if b != [] { SplitJoin(ShowAll(b), AMPERSAND); JoinNonEmpty(ShowAll(b), AMPERSAND); }
    assert ShowAll(a) == ShowAll(b);
    forall i | 0 <= i < |a| ensures a[i] == b[i] {
      assert SplitPair(ShowAll(a)[i]) == a[i];
    }
  }

  lemma {:induction false} EncodeCount(pairs: seq<Pair>, e: Pair)
    ensures multiset(EncodePairs(pairs))[e] == if IsCode(e) then multiset(pairs)[Undo(e)] else 0
  {
    if pairs != [] {
      EncodeCount(pairs[1..], e);
      UndoEncode(pairs[0]);
      assert pairs == [pairs[0]] + pairs[1..];
    }
  }

  lemma EncodeMultiset(a: seq<Pair>, b: seq<Pair>)
    ensures multiset(EncodePairs(a)) == multiset(EncodePairs(b)) <==> multiset(a) == multiset(b)
  {
    if multiset(EncodePairs(a)) == multiset(EncodePairs(b)) {
      forall p ensures multiset(a)[p] == multiset(b)[p] {
        UndoEncode(p);
        EncodeCount(a, EncodePair(p));
        EncodeCount(b, EncodePair(p));
      }
    }
    if multiset(a) == multiset(b) {
      forall e ensures multiset(EncodePairs(a))[e] == multiset(EncodePairs(b))[e] {
        EncodeCount(a, e);
        EncodeCount(b, e);
      }
    }
  }

  /** Same text if and only if same parameters, counted with repetition. */
  lemma {:induction false} CanonicalOfIsNormal(a: seq<Pair>, b: seq<Pair>)
    ensures CanonicalOf(a) == CanonicalOf(b) <==> multiset(a) == multiset(b)
  {
    var x, y := EncodePairs(a), EncodePairs(b);
    SortSorts(x);
    SortSorts(y);
    EncodeMultiset(a, b);
    if multiset(a) == multiset(b) {
      SortedIsUnique(Sort(x), Sort(y));
    }
    if CanonicalOf(a) == CanonicalOf(b) {
      EncodePairsCodes(a);
      EncodePairsCodes(b);
      SameMembers(x, Sort(x));
      SameMembers(y, Sort(y));
      ShownText(Sort(x), Sort(y));
    }
  }

  /** Two raw queries have the same canonical string if and only if they carry the same multiset of decoded pairs. */
  lemma {:induction false} CanonicalIsCompleteNormalForm(q1: Bytes, q2: Bytes)
    ensures Canonical(q1) == Canonical(q2) <==> multiset(QueryParameters(q1)) == multiset(QueryParameters(q2))
  {
    CanonicalOfIsNormal(QueryParameters(q1), QueryParameters(q2));
  }

  // ---------------------------------------------------------------------------
  // Idempotence and order
  // ---------------------------------------------------------------------------

  ghost predicate ValidPair(p: Pair) {
    Utf8.Valid(p.0) && Utf8.Valid(p.1)
  }

  lemma DecodedIsValid(piece: Bytes)
    ensures ValidPair(DecodePair(piece))
  {
    Utf8.LossyIsValid(DecodeLenient(SplitPair(piece).0));
    Utf8.LossyIsValid(DecodeLenient(SplitPair(piece).1));
  }

  /** What the encoder makes of decoded parameters. */
  lemma {:induction false} ParameterCodes(pieces: seq<Bytes>)
    ensures forall e | e in EncodePairs(Parameters(pieces)) :: IsCode(e) && ValidPair(Undo(e))
  {
    if pieces != [] {
      ParameterCodes(pieces[1..]);
      DecodedIsValid(pieces[0]);
      UndoEncode(DecodePair(pieces[0]));
    }
  }

  /** Reading one shown pair gives the pair it was made from. */
  lemma ReadOne(e: Pair)
    requires IsCode(e) && ValidPair(Undo(e))
    ensures Show(e) != [] && EncodePair(DecodePair(Show(e))) == e
  {
    var p := Undo(e);
    EncodedIsSafe(p.0);
    SplitShown(e.0, e.1);
    Utf8.LossyKeepsValid(p.0);
    Utf8.LossyKeepsValid(p.1);
  }

  lemma {:induction false} ReadBack(pairs: seq<Pair>)
    requires forall e | e in pairs :: IsCode(e) && ValidPair(Undo(e))
    ensures EncodePairs(Parameters(ShowAll(pairs))) == pairs
  {
    if pairs != [] {
      ReadOne(pairs[0]);
      ReadBack(pairs[1..]);
      assert ShowAll(pairs)[1..] == ShowAll(pairs[1..]);
      assert Parameters(ShowAll(pairs))[1..] == Parameters(ShowAll(pairs[1..]));
    }
  }

  /** The pieces of a joined list of shown pairs carry the same parameters as the list. */
  lemma ParametersOfJoined(pairs: seq<Pair>)
    requires AllCodes(pairs)
    ensures QueryParameters(Join(ShowAll(pairs), AMPERSAND)) == Parameters(ShowAll(pairs))
  {
    ShownPieces(pairs);
    if pairs != [] {
      SplitJoin(ShowAll(pairs), AMPERSAND);
    } else {
      var empty: seq<Bytes> := [[]];
      assert Split([], AMPERSAND) == empty && empty[1..] == [];
    }
  }

  /** The canonical string is its own canonical string. */
  lemma CanonicalIsIdempotent(raw: Bytes)
    ensures Canonical(Canonical(raw)) == Canonical(raw)
  {
    var parameters := QueryParameters(raw);
    var codes := EncodePairs(parameters);
    var sorted := Sort(codes);
    ParameterCodes(Split(raw, AMPERSAND));
    SortSorts(codes);
    SameMembers(codes, sorted);
    ReadBack(sorted);
    ParametersOfJoined(sorted);
    EncodeMultiset(QueryParameters(Canonical(raw)), parameters);
    CanonicalOfIsNormal(QueryParameters(Canonical(raw)), parameters);
  }

  lemma {:induction false} ParametersAppend(a: seq<Bytes>, b: seq<Bytes>)
    ensures Parameters(a + b) == Parameters(a) + Parameters(b)
  {
    hide DecodePair;
    if a == [] {
      assert a + b == b;
    } else {
      ParametersAppend(a[1..], b);
      assert (a + b)[1..] == a[1..] + b && (a + b)[0] == a[0];
      if a[0] != [] {
        AppendAssociates([DecodePair(a[0])], Parameters(a[1..]), Parameters(b));
      }
    }
  }

  lemma Extract(s: seq<Bytes>, x: Bytes) returns (front: seq<Bytes>, back: seq<Bytes>)
    requires x in multiset(s)
    ensures s == front + ([x] + back) && multiset(front + back) == multiset(s) - multiset{x}
  {
    var i :| 0 <= i < |s| && s[i] == x;
    front, back := s[..i], s[i + 1..];
    assert s == front + ([x] + back);
  }

  /** The parameters of one piece among others, counted with repetition. */
  lemma ParametersAround(front: seq<Bytes>, x: Bytes, back: seq<Bytes>)
    ensures multiset(Parameters(front + ([x] + back))) == multiset(Parameters([x])) + multiset(Parameters(front + back))
  {
    hide Parameters;
    ParametersAppend(front, [x] + back);
    ParametersAppend([x], back);
    ParametersAppend(front, back);
  }

  lemma HeadParameters(a: seq<Bytes>)
    requires a != []
    ensures multiset(Parameters(a)) == multiset(Parameters([a[0]])) + multiset(Parameters(a[1..]))
  {
    hide Parameters;
    ParametersAppend([a[0]], a[1..]);
    assert a == [a[0]] + a[1..];
  }

  lemma {:induction false} ParametersPermute(a: seq<Bytes>, b: seq<Bytes>)
    requires multiset(a) == multiset(b)
    ensures multiset(Parameters(a)) == multiset(Parameters(b))
  {
    hide Parameters;
    assert |a| == |multiset(a)| == |b|;
    if a != [] {
      assert a[0] in multiset(a);
      var front, back := Extract(b, a[0]);
      var rest := front + back;
      DropHead(a);
      ParametersPermute(a[1..], rest);
      ParametersAround(front, a[0], back);
      HeadParameters(a);
    }
  }

  /** Reordering the `&`-separated pieces of a query does not change its canonical string. */
  lemma {:induction false} PieceOrderIsIrrelevant(q1: Bytes, q2: Bytes)
    requires multiset(Split(q1, AMPERSAND)) == multiset(Split(q2, AMPERSAND))
    ensures Canonical(q1) == Canonical(q2)
  {
    ParametersPermute(Split(q1, AMPERSAND), Split(q2, AMPERSAND));
    CanonicalIsCompleteNormalForm(q1, q2);
  }

  // ---------------------------------------------------------------------------
  // What the canonical query looks like
  // ---------------------------------------------------------------------------

  lemma {:induction false} NoEquals(key: Bytes)
    requires EQUALS !in key
    ensures SplitPair(key) == (key, [])
  {
    if key != [] {
      assert key == [key[0]] + key[1..];
      NoEquals(key[1..]);
    }
  }

  /** A piece is cut at its first `=`; without one it is all key, as if it ended in `=`. */
  lemma {:induction false} CutAtFirstEquals(key: Bytes, value: Bytes)
    requires EQUALS !in key
    ensures SplitPair(key + ['=' as int] + value) == (key, value)
    ensures SplitPair(key) == SplitPair(key + ['=' as int]) == (key, [])
  {
    SplitShown(key, value);
    SplitShown(key, []);
    assert key + [EQUALS] + [] == key + [EQUALS];
    NoEquals(key);
  }

  /** The parameters of a query, put together from those of its pieces. */
  lemma {:induction false} ParametersSpelled(key: Bytes, value: Bytes, left: Bytes, right: Bytes)
    requires EQUALS !in key && AMPERSAND !in key && AMPERSAND !in value
    ensures QueryParameters([]) == []
    ensures QueryParameters(key + ['=' as int] + value) == [(Decode(key), Decode(value))]
    ensures key != [] ==> QueryParameters(key) == [(Decode(key), [])]
    ensures QueryParameters(left + ['&' as int] + right) == QueryParameters(left) + QueryParameters(right)
  {
    CutAtFirstEquals(key, value);
    var piece := key + [EQUALS] + value;
    SplitJoin([piece], AMPERSAND);
    SplitJoin([key], AMPERSAND);
    assert Parameters([piece]) == [DecodePair(piece)] + Parameters([]);
    assert Parameters([key]) == if key == [] then [] else [DecodePair(key)] + Parameters([]);
    assert Decode([]) == [];
    var empty: seq<Bytes> := [[]];
    assert Split([], AMPERSAND) == empty && empty[1..] == [];
    SplitAround(left, right, AMPERSAND);
    ParametersAppend(Split(left, AMPERSAND), Split(right, AMPERSAND));
  }

  lemma {:induction false} ShownOne(pairs: seq<Pair>)
    ensures |ShowAll(pairs)| == |pairs| && forall i | 0 <= i < |pairs| :: ShowAll(pairs)[i] == Show(pairs[i])
  {
    if pairs != [] { ShownOne(pairs[1..]); }
  }

  /** The pieces of the canonical query, read as pairs, are the encoded parameters in sorted order. */
  lemma CanonicalPieces(raw: Bytes)
    requires QueryParameters(raw) != []
    ensures var codes := Sort(EncodePairs(QueryParameters(raw)));
            var pieces := Split(Canonical(raw), AMPERSAND);
            && |pieces| == |codes| && Sorted(codes)
            && multiset(codes) == multiset(EncodePairs(QueryParameters(raw)))
            && forall i | 0 <= i < |pieces| :: SplitPair(pieces[i]) == codes[i] && pieces[i] == Show(codes[i])
  {
    var params := QueryParameters(raw);
    var codes := Sort(EncodePairs(params));
    EncodePairsCodes(params);
    SortSorts(EncodePairs(params));
    SameMembers(codes, EncodePairs(params));
    ShownPieces(codes);
    assert |codes| == |multiset(codes)| == |EncodePairs(params)| > 0;
    SplitJoin(ShowAll(codes), AMPERSAND);
    ShownOne(codes);
  }

  lemma NothingToShow(raw: Bytes)
    requires QueryParameters(raw) == []
    ensures Canonical(raw) == [] && |Split(Canonical(raw), AMPERSAND)| == 1
  {
  }

  /**
   In the canonical query every piece stands before the next one: its key is smaller in the
   lexical order of bytes, or the keys are the same and its value is not larger.
   */
  lemma CanonicalIsSorted(raw: Bytes, i: nat)
    requires i + 1 < |Split(Canonical(raw), AMPERSAND)|
    ensures var pieces := Split(Canonical(raw), AMPERSAND);
            var (a, b) := (SplitPair(pieces[i]), SplitPair(pieces[i + 1]));
            if a.0 == b.0 then
              || a.1 <= b.1
              || exists j :: 0 <= j < |a.1| && j < |b.1| && a.1[..j] == b.1[..j] && a.1[j] < b.1[j]
            else
              || a.0 <= b.0
              || exists j :: 0 <= j < |a.0| && j < |b.0| && a.0[..j] == b.0[..j] && a.0[j] < b.0[j]
  {
    hide AtMost, Split, Canonical, Sort;
    if QueryParameters(raw) == [] {
      NothingToShow(raw);
    } else {
      CanonicalPieces(raw);
      var pieces := Split(Canonical(raw), AMPERSAND);
      var (a, b) := (SplitPair(pieces[i]), SplitPair(pieces[i + 1]));
      AtMostIsLexical(a.0, b.0);
      AtMostIsLexical(a.1, b.1);
    }
  }

  /** Showing pairs keeps their number, as the pair can be read off what is shown. */
  lemma {:induction false} CountShown(codes: seq<Pair>, pieces: seq<Bytes>, code: Pair)
    requires |pieces| == |codes|
    requires forall i | 0 <= i < |pieces| :: SplitPair(pieces[i]) == codes[i] && pieces[i] == Show(codes[i])
    requires SplitPair(Show(code)) == code
    ensures multiset(pieces)[Show(code)] == multiset(codes)[code]
  {
    if codes != [] {
      var n := |codes| - 1;
      CountShown(codes[..n], pieces[..n], code);
      assert codes == codes[..n] + [codes[n]] && pieces == pieces[..n] + [pieces[n]];
    }
  }

  /** The pieces of the canonical query are the parameters, each as often as it occurs, encoded with `=` between. */
  lemma CanonicalShowsParameters(raw: Bytes, key: Bytes, value: Bytes)
    requires QueryParameters(raw) != []
    ensures multiset(Split(Canonical(raw), AMPERSAND))[Encode(key, false) + ['=' as int] + Encode(value, false)]
            == multiset(QueryParameters(raw))[(key, value)]
  {
    hide Split, Canonical, Sort;
    var params := QueryParameters(raw);
    var codes := Sort(EncodePairs(params));
    var code := EncodePair((key, value));
    var pieces := Split(Canonical(raw), AMPERSAND);
    CanonicalPieces(raw);
    CutAtFirstEquals(code.0, code.1) by { EncodedIsSafe(key); }
    CountShown(codes, pieces, code);
    EncodeCount(params, code);
    UndoEncode((key, value));
  }

  /** Any spelling of a text in a query, escapes in either case, is read as that text; a `+` is no blank. */
  lemma DecodeReadsText(pieces: seq<Bytes>, text: string)
    requires AllSpell(pieces, Utf8.Encoded(text))
    ensures Decode(Concat(pieces)) == Utf8.Encoded(text)
  {
    hide Utf8.Valid, Utf8.Lossy, DecodeLenient;
    DecodeLenientReads(pieces, Utf8.Encoded(text), []);
    DecodeNothing();
    assert Concat(pieces) + [] == Concat(pieces) && Utf8.Encoded(text) + [] == Utf8.Encoded(text);
    Utf8.EncodedIsValid(text);
    Utf8.LossyKeepsValid(Utf8.Encoded(text));
  }
}
