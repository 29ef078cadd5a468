/** `DavTarget` of webdav.rs: the URL parser, its printer, and the keys locks are filed under. */
module DavPath {
  import opened ByteStrings
  import opened PercentCoding
  import opened Wrappers
  import Utf8

  /** The bytes of "/webdav". */
  const DAV_PREFIX: Bytes := [0x2F, 0x77, 0x65, 0x62, 0x64, 0x61, 0x76]

  datatype DavTarget = DavTarget(root: Option<Bytes>, relative: Bytes)

  datatype PathError = NotFound | InvalidPath

  /** A decoded segment the parser accepts. */
  predicate Ordinary(name: Bytes) {
    && name != [] && name != [DOT] && name != [DOT, DOT]
    && SLASH !in name && BACKSLASH !in name && 0 !in name
    && Utf8.Valid(name)
  }

  ghost predicate AllOrdinary(names: seq<Bytes>) {
    forall i | 0 <= i < |names| :: Ordinary(names[i])
  }

  /** What an entry of a directory may be called. */
  predicate FileName(name: Bytes) {
    name != [] && SLASH !in name
  }

  ghost predicate AllFileNames(names: seq<Bytes>) {
    forall i | 0 <= i < |names| :: FileName(names[i])
  }

  function DecodeSegment(raw: Bytes): Option<Bytes> {
    var decoded := DecodeStrict(raw);
    if decoded.Some? && Ordinary(decoded.value) then decoded else None
  }

  /** Decode the pieces of a path, passing over empty ones. */
  function DecodeAll(pieces: seq<Bytes>): Option<seq<Bytes>> {
    if pieces == [] then Some([])
    else if pieces[0] == [] then DecodeAll(pieces[1..])
    else
      var head := DecodeSegment(pieces[0]);
      var rest := DecodeAll(pieces[1..]);
      if head.Some? && rest.Some? then Some([head.value] + rest.value) else None
  }

  function FromSegments(segments: seq<Bytes>): DavTarget {
    if segments == [] then DavTarget(None, [])
    else DavTarget(Some(segments[0]), Join(segments[1..], SLASH))
  }

  function FromPath(path: Bytes): Result<DavTarget, PathError> {
    if !(DAV_PREFIX <= path) then Failure(NotFound)
    else
      var suffix := path[|DAV_PREFIX|..];
      if suffix != [] && suffix[0] != SLASH then Failure(NotFound)
      else
        var segments := DecodeAll(Split(suffix, SLASH));
        if segments.None? then Failure(InvalidPath) else Success(FromSegments(segments.value))
  }

  function NonEmpty(pieces: seq<Bytes>): seq<Bytes> {
    if pieces == [] then []
    else if pieces[0] == [] then NonEmpty(pieces[1..])
    else [pieces[0]] + NonEmpty(pieces[1..])
  }

  /** The names on the way from the DAV root to a target. */
  function Segments(target: DavTarget): seq<Bytes> {
    if target.root.None? then [] else [target.root.value] + NonEmpty(Split(target.relative, SLASH))
  }

  function EncodedPath(names: seq<Bytes>): Bytes {
    if names == [] then [] else [SLASH] + Encode(names[0], false) + EncodedPath(names[1..])
  }

  function Href(target: DavTarget, collection: bool): Bytes {
    var href := DAV_PREFIX + EncodedPath(Segments(target));
    if collection && href[|href| - 1] != SLASH then href + [SLASH] else href
  }

  /** The key of the lock table. */
  function LockKey(target: DavTarget): Bytes {
    match target.root
    case None => []
    case Some(root) => if target.relative == [] then root else root + [SLASH] + target.relative
  }

  predicate IsDescendant(ancestor: Bytes, path: Bytes) {
    ancestor != [] && |path| > |ancestor| && ancestor <= path && path[|ancestor|] == SLASH
  }

  // ---------------------------------------------------------------------------
  // The loops of `from_path` and `href`
  // ---------------------------------------------------------------------------

  function TrimStart(s: Bytes): Bytes {
    if s != [] && s[0] == SLASH then TrimStart(s[1..]) else s
  }

  function TrimEnd(s: Bytes): Bytes {
    if s != [] && s[|s| - 1] == SLASH then TrimEnd(s[..|s| - 1]) else s
  }

  lemma {:induction false} DecodeAllAppendEmpty(pieces: seq<Bytes>)
    ensures DecodeAll(pieces + [[]]) == DecodeAll(pieces)
  {
    if pieces != [] {
      DecodeAllAppendEmpty(pieces[1..]);
      assert (pieces + [[]])[1..] == pieces[1..] + [[]];
    }
  }

  lemma {:induction false} TrimStartKeepsSegments(s: Bytes)
    ensures DecodeAll(Split(TrimStart(s), SLASH)) == DecodeAll(Split(s, SLASH))
  {
    if s != [] && s[0] == SLASH {
      TrimStartKeepsSegments(s[1..]);
      assert Split(s, SLASH)[1..] == Split(s[1..], SLASH);
    }
  }

  lemma {:induction false} TrimEndKeepsSegments(s: Bytes)
    ensures DecodeAll(Split(TrimEnd(s), SLASH)) == DecodeAll(Split(s, SLASH))
  {
    if s != [] && s[|s| - 1] == SLASH {
      var front := s[..|s| - 1];
      TrimEndKeepsSegments(front);
      SplitAround(front, [], SLASH);
      assert front + [SLASH] + [] == s;
      DecodeAllAppendEmpty(Split(front, SLASH));
    }
  }

  ghost function Before(done: seq<Bytes>, rest: Option<seq<Bytes>>): Option<seq<Bytes>> {
    if rest.Some? then Some(done + rest.value) else None
  }

  lemma BeforeStep(done: seq<Bytes>, name: Bytes, rest: Option<seq<Bytes>>)
    ensures Before(done, Before([name], rest)) == Before(done + [name], rest)
  {
    if rest.Some? {
      assert done + ([name] + rest.value) == done + [name] + rest.value;
    }
  }

  lemma BeforeNothing(rest: Option<seq<Bytes>>)
    ensures Before([], rest) == rest
  {
    if rest.Some? {
      assert [] + rest.value == rest.value;
    }
  }

  /** The loop of `from_path`: push every decoded piece, give up at the first bad one. */
  method DecodePieces(pieces: seq<Bytes>) returns (r: Option<seq<Bytes>>)
    ensures r == DecodeAll(pieces)
  {
    var segments: seq<Bytes> := [];
    assert pieces[0..] == pieces;
    BeforeNothing(DecodeAll(pieces));
    for i := 0 to |pieces|
      invariant DecodeAll(pieces) == Before(segments, DecodeAll(pieces[i..]))
    {
      assert pieces[i..][1..] == pieces[i + 1..];
      if pieces[i] == [] { continue; }
      var decoded := DecodeStrictBytes(pieces[i]);
      if decoded.None? || !Utf8.Valid(decoded.value) { return None; }
      var name := decoded.value;
      DecodeStrictNonEmpty(pieces[i]);
      if name == [DOT] || name == [DOT, DOT] || SLASH in name || BACKSLASH in name || 0 in name {
        return None;
      }
      BeforeStep(segments, name, DecodeAll(pieces[i + 1..]));
      segments := segments + [name];
    }
    assert pieces[|pieces|..] == [] && segments + [] == segments;
    r := Some(segments);
  }

  method ParsePath(path: Bytes) returns (r: Result<DavTarget, PathError>)
    ensures r == FromPath(path)
  {
    if !(DAV_PREFIX <= path) { return Failure(NotFound); }
    var suffix := path[|DAV_PREFIX|..];
    if suffix != [] && suffix[0] != SLASH { return Failure(NotFound); }

    TrimStartKeepsSegments(suffix);
    TrimEndKeepsSegments(TrimStart(suffix));
    var decoded := DecodePieces(Split(TrimEnd(TrimStart(suffix)), SLASH));
    if decoded.None? { return Failure(InvalidPath); }
    var segments := decoded.value;
    if segments == [] { return Success(DavTarget(None, [])); }
    r := Success(DavTarget(Some(segments[0]), Join(segments[1..], SLASH)));
  }

  method BuildHref(target: DavTarget, collection: bool) returns (href: Bytes)
    ensures href == Href(target, collection)
  {
    hide Split, NonEmpty, Encode;
    href := DAV_PREFIX;
    if target.root.Some? {
      var root := EncodeBytes(target.root.value, false);
      href := href + [SLASH] + root;
      var pieces := NonEmpty(Split(target.relative, SLASH));
      var names := Segments(target);
      assert names[1..] == pieces && pieces[0..] == pieces;
      AppendAssociates(DAV_PREFIX, [SLASH] + root, EncodedPath(pieces));
      for i := 0 to |pieces|
        invariant href + EncodedPath(pieces[i..]) == DAV_PREFIX + EncodedPath(names)
      {
        assert pieces[i..][1..] == pieces[i + 1..];
        var piece := EncodeBytes(pieces[i], false);
        AppendAssociates(href, [SLASH] + piece, EncodedPath(pieces[i + 1..]));
        AppendAssociates(href, [SLASH], piece);
        href := href + [SLASH] + piece;
      }
      assert pieces[|pieces|..] == [] && href + [] == href;
    }
    if collection && href[|href| - 1] != SLASH {
      href := href + [SLASH];
    }
  }

  // ---------------------------------------------------------------------------
  // Parsing and printing
  // ---------------------------------------------------------------------------

  lemma {:induction false} DecodeAllOrdinary(pieces: seq<Bytes>)
    requires DecodeAll(pieces).Some?
    ensures AllOrdinary(DecodeAll(pieces).value)
  {
    if pieces != [] {
      DecodeAllOrdinary(pieces[1..]);
    }
  }

  /** Every parsed target comes from a list of ordinary names. */
  lemma ParsedSegments(path: Bytes) returns (names: seq<Bytes>)
    requires FromPath(path).Success?
    ensures AllOrdinary(names) && FromPath(path) == Success(FromSegments(names))
  {
    var pieces := Split(path[|DAV_PREFIX|..], SLASH);
    DecodeAllOrdinary(pieces);
    names := DecodeAll(pieces).value;
  }

  lemma {:induction false} NonEmptyKeepsOrdinary(names: seq<Bytes>)
    requires AllOrdinary(names)
    ensures NonEmpty(names) == names
  {
    if names != [] {
      NonEmptyKeepsOrdinary(names[1..]);
    }
  }

  lemma SegmentsOfTarget(names: seq<Bytes>)
    requires AllOrdinary(names)
    ensures Segments(FromSegments(names)) == names
  {
    if |names| > 1 {
      SplitJoin(names[1..], SLASH);
      NonEmptyKeepsOrdinary(names[1..]);
    } else if |names| == 1 {
      assert names[1..] == [];
      assert NonEmpty(Split([], SLASH)) == [];
    }
  }

  lemma EncodedSegment(name: Bytes)
    requires Ordinary(name)
    ensures Encode(name, false) != [] && SLASH !in Encode(name, false)
    ensures DecodeSegment(Encode(name, false)) == Some(name)
  {
    DecodeStrictEncode(name, false);
    if SLASH in Encode(name, false) {
      EncodeAlphabet(name, false, SLASH);
    }
  }

  /** The pieces of "/" + code + rest, where `rest` itself starts at a slash. */
  lemma SplitSegment(code: Bytes, rest: Bytes)
    requires code != [] && SLASH !in code && Split(rest, SLASH)[0] == []
    ensures var pieces := Split([SLASH] + code + rest, SLASH);
            && pieces[0] == []
            && DecodeAll(pieces) == DecodeAll([code] + Split(rest, SLASH))
  {
    var whole := [SLASH] + code + rest;
    var tail := Split(rest, SLASH)[1..];
    SplitPrepend(code, rest, SLASH);
    assert whole[1..] == code + rest && code + [] == code;
    assert Split(whole, SLASH) == [[]] + ([code] + tail);
    assert ([[]] + ([code] + tail))[1..] == [code] + tail;
    assert ([code] + tail)[1..] == tail;
    assert ([code] + Split(rest, SLASH))[1..] == Split(rest, SLASH);
  }

  lemma {:induction false} EncodedPathDecodes(names: seq<Bytes>, trail: Bytes)
    requires AllOrdinary(names) && (trail == [] || trail == [SLASH])
    ensures Split(EncodedPath(names) + trail, SLASH)[0] == []
    ensures DecodeAll(Split(EncodedPath(names) + trail, SLASH)) == Some(names)
  {
    if names == [] {
      assert EncodedPath(names) + trail == trail;
      var one: seq<Bytes> := [[]];
      var two: seq<Bytes> := [[], []];
      assert trail == [SLASH] ==> trail[1..] == [];
      assert Split(trail, SLASH) == if trail == [] then one else two;
      assert one[1..] == [] && two[1..] == one;
    } else {
      var rest := EncodedPath(names[1..]) + trail;
      EncodedPathDecodes(names[1..], trail);
      EncodedSegment(names[0]);
      SplitSegment(Encode(names[0], false), rest);
      AppendAssociates([SLASH] + Encode(names[0], false), EncodedPath(names[1..]), trail);
      assert ([Encode(names[0], false)] + Split(rest, SLASH))[1..] == Split(rest, SLASH);
      assert [names[0]] + names[1..] == names;
    }
  }

  /** Reading back the printed URL of a parsed target gives that target. */
  lemma HrefRoundTrip(path: Bytes, collection: bool)
    requires FromPath(path).Success?
    ensures FromPath(Href(FromPath(path).value, collection)) == FromPath(path)
  {
    var names := ParsedSegments(path);
    SegmentsOfTarget(names);
    var target := FromPath(path).value;
    var href := Href(target, collection);
    var trail := href[|DAV_PREFIX| + |EncodedPath(names)|..];
    EncodedPathDecodes(names, trail);
    assert href == DAV_PREFIX + (EncodedPath(names) + trail);
    assert href[|DAV_PREFIX|..] == EncodedPath(names) + trail;
  }

  /** Different parsed targets never print the same URL, as collection or not. */
  lemma HrefInjective(path1: Bytes, path2: Bytes, collection1: bool, collection2: bool)
    requires FromPath(path1).Success? && FromPath(path2).Success?
    requires Href(FromPath(path1).value, collection1) == Href(FromPath(path2).value, collection2)
    ensures FromPath(path1) == FromPath(path2)
  {
    HrefRoundTrip(path1, collection1);
    HrefRoundTrip(path2, collection2);
  }

  // ---------------------------------------------------------------------------
  // Lock keys
  // ---------------------------------------------------------------------------

  ghost predicate ProperPrefix(a: seq<Bytes>, b: seq<Bytes>) {
    |a| < |b| && a <= b
  }

  lemma LockKeyIsJoin(names: seq<Bytes>)
    requires AllOrdinary(names)
    ensures LockKey(FromSegments(names)) == Join(names, SLASH)
  {
    if |names| > 1 {
      JoinNonEmpty(names[1..], SLASH);
    }
  }

  lemma JoinOrder(a: seq<Bytes>, b: seq<Bytes>)
    requires a != [] && b != [] && AllFileNames(a) && AllFileNames(b)
    ensures IsDescendant(Join(a, SLASH), Join(b, SLASH)) <==> ProperPrefix(a, b)
    ensures Join(a, SLASH) == Join(b, SLASH) <==> a == b
  {
    hide Join, Split, Utf8.Valid;
    var key, below := Join(a, SLASH), Join(b, SLASH);
    SplitJoin(a, SLASH);
    SplitJoin(b, SLASH);
    JoinNonEmpty(a, SLASH);
    if ProperPrefix(a, b) {
      JoinAppend(a, b[|a|..], SLASH);
      assert b == a + b[|a|..];
    }
    if IsDescendant(key, below) {
      SplitAround(key, below[|key| + 1..], SLASH);
      assert below == key + [SLASH] + below[|key| + 1..];
    }
  }

  /**
   On parsed targets with a root, equal keys mean equal targets, and the byte test
   `is_descendant` on keys is exactly "lies strictly below" in the tree of names.
   */
  lemma KeyOrderIsTreeOrder(path1: Bytes, path2: Bytes)
    requires FromPath(path1).Success? && FromPath(path1).value.root.Some?
    requires FromPath(path2).Success? && FromPath(path2).value.root.Some?
    ensures var t1, t2 := FromPath(path1).value, FromPath(path2).value;
            && (LockKey(t1) == LockKey(t2) <==> t1 == t2)
            && (IsDescendant(LockKey(t1), LockKey(t2)) <==> ProperPrefix(Segments(t1), Segments(t2)))
  {
    var a := ParsedSegments(path1);
    var b := ParsedSegments(path2);
    SegmentsOfTarget(a);
    SegmentsOfTarget(b);
    LockKeyIsJoin(a);
    LockKeyIsJoin(b);
    JoinOrder(a, b);
  }

  // ---------------------------------------------------------------------------
  // Which URLs lead where
  // ---------------------------------------------------------------------------

  lemma {:induction false} AsciiText(text: string, ascii: string)
    requires forall i | 0 <= i < |ascii| :: (ascii[i] as int) < 0x80
    ensures Utf8.Encoded(ascii) == seq(|ascii|, i requires 0 <= i < |ascii| => ascii[i] as int)
    ensures Utf8.Encoded(text) == seq(|ascii|, i requires 0 <= i < |ascii| => ascii[i] as int) <==> text == ascii
    decreases |ascii|
  {
    if ascii != [] {
      AsciiText(ascii[1..], ascii[1..]);
      assert Utf8.CharBytes(ascii[0]) == [ascii[0] as int];
    }
    if Utf8.Encoded(text) == Utf8.Encoded(ascii) {
      Utf8.EncodedInjective(text, ascii);
    }
  }

  /** What a name in a URL may not be. */
  ghost predicate GoodText(text: string) {
    text != "" && text != "." && text != ".." && '/' !in text && '\\' !in text && '\0' !in text
  }

  lemma OrdinaryText(text: string)
    ensures Ordinary(Utf8.Encoded(text)) <==> GoodText(text)
  {
    AsciiText(text, "");
    AsciiText(text, ".");
    AsciiText(text, "..");
    Utf8.EncodedIsValid(text);
    Utf8.EncodedHas(text, SLASH);
    Utf8.EncodedHas(text, BACKSLASH);
    Utf8.EncodedHas(text, 0);
  }

  /** A name the parser accepts is such a text, in UTF-8. */
  lemma OrdinaryIff(name: Bytes)
    ensures Ordinary(name) <==> exists text :: Utf8.Encoded(text) == name && GoodText(text)
  {
    Utf8.ValidIff(name);
    forall text | Utf8.Encoded(text) == name ensures Ordinary(name) <==> GoodText(text) {
      OrdinaryText(text);
    }
  }

  lemma {:induction false} DecodeAllReads(pieces: seq<Bytes>, names: seq<Bytes>)
    requires |pieces| == |names| && AllOrdinary(names)
    requires forall i | 0 <= i < |pieces| :: pieces[i] != [] && DecodeStrict(pieces[i]) == Some(names[i])
    ensures DecodeAll(pieces) == Some(names)
  {
    if names != [] {
      DecodeAllReads(pieces[1..], names[1..]);
      assert [names[0]] + names[1..] == names;
    }
  }

  lemma {:induction false} DecodeAllRefuses(pieces: seq<Bytes>, i: nat)
    requires i < |pieces| && pieces[i] != [] && DecodeSegment(pieces[i]).None?
    ensures DecodeAll(pieces).None?
  {
    if i > 0 { DecodeAllRefuses(pieces[1..], i - 1); }
  }

  lemma {:induction false} DecodeAllSkips(left: seq<Bytes>, right: seq<Bytes>)
    ensures DecodeAll(left + [[]] + right) == DecodeAll(left + right)
  {
    if left == [] {
      var empty: seq<Bytes> := [[]];
      assert left + empty + right == empty + right && (empty + right)[1..] == right && left + right == right;
    } else {
      DecodeAllSkips(left[1..], right);
      assert (left + [[]] + right)[1..] == left[1..] + [[]] + right && (left + right)[1..] == left[1..] + right;
    }
  }

  /** The text of a URL, from its pieces. */
  function Url(pieces: seq<Bytes>): Bytes {
    Utf8.Encoded("/webdav/") + Join(pieces, SLASH)
  }

  lemma PrefixIs()
    ensures Utf8.Encoded("/webdav") == DAV_PREFIX && Utf8.Encoded("/webdav/") == DAV_PREFIX + [SLASH]
  {
    hide Utf8.Encoded;
    AsciiText("/webdav", "/webdav");
    AsciiText("/webdav/", "/webdav/");
  }

  lemma NoSlash(name: Bytes)
    requires Ordinary(name)
    ensures name != [] && SLASH !in name && HexValue(SLASH).None? && SLASH != PERCENT
  {
  }

  lemma UrlPieces(pieces: seq<Bytes>)
    requires pieces != [] && Free(pieces, SLASH)
    ensures FromPath(Url(pieces)) ==
              match DecodeAll(pieces)
              case None => Failure(InvalidPath)
              case Some(names) => Success(FromSegments(names))
  {
    hide Utf8.Encoded;
    PrefixIs();
    SplitJoin(pieces, SLASH);
    var suffix := [SLASH] + Join(pieces, SLASH);
    assert Url(pieces) == DAV_PREFIX + suffix && Url(pieces)[|DAV_PREFIX|..] == suffix;
    assert suffix[1..] == Join(pieces, SLASH);
    assert Split(suffix, SLASH) == [[]] + pieces && ([[]] + pieces)[1..] == pieces;
  }

  /** Empty pieces are passed over. */
  lemma UrlSkips(left: seq<Bytes>, right: seq<Bytes>)
    requires Free(left + right, SLASH) && left + right != []
    ensures FromPath(Url(left + [[]] + right)) == FromPath(Url(left + right))
  {
    hide Utf8.Encoded;
    var whole := left + [[]] + right;
    forall i | 0 <= i < |whole| ensures SLASH !in whole[i] {
      assert whole[i] == [] || whole[i] in left + right;
    }
    DecodeAllSkips(left, right);
    UrlPieces(whole);
    UrlPieces(left + right);
  }

  /**
   A URL of names, none of them empty, "." or ".." or with a slash, a backslash or a NUL,
   leads to those names, however their bytes are spelled, with or without a slash at its end.
   */
  lemma UrlReads(texts: seq<string>, spellings: seq<seq<Bytes>>)
    requires texts != [] && |spellings| == |texts|
    requires forall i | 0 <= i < |texts| :: GoodText(texts[i]) && AllSpell(spellings[i], Utf8.Encoded(texts[i]))
    ensures var names := seq(|texts|, i requires 0 <= i < |texts| => Utf8.Encoded(texts[i]));
            var pieces := seq(|texts|, i requires 0 <= i < |texts| => Concat(spellings[i]));
            && FromPath(Url(pieces)) == FromPath(Url(pieces + [[]]))
               == Success(DavTarget(Some(names[0]), Join(names[1..], SLASH)))
            && AllOrdinary(names)
  {
    hide Utf8.Encoded, Ordinary, GoodText, AllSpell;
    var names := seq(|texts|, i requires 0 <= i < |texts| => Utf8.Encoded(texts[i]));
    var pieces := seq(|texts|, i requires 0 <= i < |texts| => Concat(spellings[i]));
    forall i | 0 <= i < |texts|
      ensures Ordinary(names[i]) && DecodeStrict(pieces[i]) == Some(names[i]) && SLASH !in pieces[i]
      ensures pieces[i] != []
    {
      OrdinaryText(texts[i]);
      DecodeStrictReads(spellings[i], names[i]);
      NoSlash(names[i]);
      SpelledHolds(spellings[i], names[i], SLASH);
      DecodeNothing();
    }
    DecodeAllReads(pieces, names);
    UrlPieces(pieces);
    UrlSkips(pieces, []);
    assert pieces + [] == pieces && pieces + [[]] + [] == pieces + [[]];
  }

  /** One bad name, and the request is refused. */
  lemma UrlRefuses(pieces: seq<Bytes>, i: nat)
    requires Free(pieces, SLASH) && i < |pieces| && pieces[i] != []
    requires !exists text, spelling ::
               GoodText(text) && AllSpell(spelling, Utf8.Encoded(text)) && Concat(spelling) == pieces[i]
    ensures FromPath(Url(pieces)) == Failure(InvalidPath)
  {
    hide Utf8.Encoded, GoodText, AllSpell;
    if DecodeSegment(pieces[i]).Some? {
      var name := DecodeStrict(pieces[i]).value;
      OrdinaryIff(name);
      DecodeStrictIff(pieces[i], name);
    }
    DecodeAllRefuses(pieces, i);
    UrlPieces(pieces);
  }

  /** The root, and what is not below "/webdav". */
  lemma UrlPrefix(path: Bytes)
    ensures FromPath(Utf8.Encoded("/webdav")) == FromPath(Url([[]])) == Success(DavTarget(None, []))
    ensures path != Utf8.Encoded("/webdav") && !(Utf8.Encoded("/webdav/") <= path) ==>
              FromPath(path) == Failure(PathError.NotFound)
  {
    hide Utf8.Encoded;
    PrefixIs();
    var empty: seq<Bytes> := [[]];
    assert empty[1..] == [] && Split([], SLASH) == empty;
    UrlPieces(empty);
  }

  lemma {:induction false} EncodedPathAppend(names: seq<Bytes>, name: Bytes)
    ensures EncodedPath(names + [name]) == EncodedPath(names) + [SLASH] + Encode(name, false)
  {
    if names == [] {
      assert names + [name] == [name] && [name][1..] == [];
      assert [SLASH] + Encode(name, false) + [] == [SLASH] + Encode(name, false);
    } else {
      var head, tail := [SLASH] + Encode(names[0], false), EncodedPath(names[1..]);
      EncodedPathAppend(names[1..], name);
      assert (names + [name])[1..] == names[1..] + [name];
      AppendAssociates(head, tail, [SLASH]);
      AppendAssociates(head, tail + [SLASH], Encode(name, false));
    }
  }

  lemma NothingEncoded()
    ensures EncodedPath([]) == [] && FromSegments([]) == DavTarget(None, [])
  {
  }

  /** What is printed: "/webdav", a slash and an encoded name for each name, and a last slash for a collection. */
  lemma HrefSpelled(names: seq<Bytes>, name: Bytes)
    requires AllOrdinary(names + [name])
    ensures Href(DavTarget(None, []), false) == Utf8.Encoded("/webdav")
    ensures Href(FromSegments(names + [name]), false)
            == Href(FromSegments(names), false) + ['/' as int] + Encode(name, false)
    ensures Href(DavTarget(None, []), true) == Utf8.Encoded("/webdav/")
    ensures Href(FromSegments(names + [name]), true) == Href(FromSegments(names + [name]), false) + ['/' as int]
  {
    hide Utf8.Encoded, Encode, Ordinary, EncodedPath, Segments, FromSegments;
    PrefixIs();
    forall i | 0 <= i < |names| ensures Ordinary(names[i]) {
      assert names[i] == (names + [name])[i];
    }
    assert Ordinary((names + [name])[|names|]);
    SegmentsOfTarget(names);
    SegmentsOfTarget(names + [name]);
    SegmentsOfTarget([]);
    EncodedPathAppend(names, name);
    NothingEncoded();
    EncodedSegment(name);
    AppendAssociates(DAV_PREFIX, EncodedPath(names) + [SLASH], Encode(name, false));
    AppendAssociates(DAV_PREFIX, EncodedPath(names), [SLASH]);
  }
}
