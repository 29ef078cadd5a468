/** `lock_timeout` of webdav.rs: the `Timeout` header of LOCK (section 10.7 of RFC 4918), in seconds. */
module Timeouts {
  import BitStrings
  import opened ByteStrings
  import opened PercentCoding
  import opened Wrappers

  const DEFAULT_LOCK_TIMEOUT: nat := 600
  const MAX_LOCK_TIMEOUT: nat := 3600

  const COMMA: byte := 0x2C
  const PLUS: byte := 0x2B
  const ZERO: byte := 0x30
  /** The bytes of "infinite". */
  const INFINITE: Bytes := [0x69, 0x6E, 0x66, 0x69, 0x6E, 0x69, 0x74, 0x65]
  /** The bytes of "Second-". */
  const SECOND: Bytes := [0x53, 0x65, 0x63, 0x6F, 0x6E, 0x64, 0x2D]

  /** `char::is_whitespace`, as far as a header can hold it. */
  predicate Blank(b: byte) {
    b == 0x20 || b == 0x09
  }

  function TrimLeft(s: Bytes): Bytes {
    if s != [] && Blank(s[0]) then TrimLeft(s[1..]) else s
  }

  function Trim(s: Bytes): Bytes {
    if s != [] && Blank(s[|s| - 1]) then Trim(s[..|s| - 1]) else TrimLeft(s)
  }

  function Lower(b: byte): byte {
    if 0x41 <= b <= 0x5A then b + 0x20 else b
  }

  predicate EqualsIgnoringCase(a: Bytes, b: Bytes) {
    |a| == |b| && forall i | 0 <= i < |a| :: Lower(a[i]) == Lower(b[i])
  }

  /** The value of a non-empty run of digits. */
  function Digits(s: Bytes): Option<nat> {
    if s == [] || !IsDigit(s[|s| - 1]) then None
    else
      var last := (s[|s| - 1] - ZERO) as nat;
      if |s| == 1 then Some(last)
      else
        var front := Digits(s[..|s| - 1]);
        if front.None? then None else Some(10 * front.value + last)
  }

  /** `parse::<u64>`: a leading `+` is accepted, a value that does not fit is not. */
  function ParseU64(s: Bytes): Option<nat> {
    var value := Digits(if s != [] && s[0] == PLUS then s[1..] else s);
    if value.Some? && value.value <= U64_MAX then value else None
  }

  function EntryTimeout(entry: Bytes): Option<nat> {
    if EqualsIgnoringCase(entry, INFINITE) then Some(MAX_LOCK_TIMEOUT)
    else if SECOND <= entry then ParseU64(entry[|SECOND|..])
    else None
  }

  function FirstTimeout(entries: seq<Bytes>): Option<nat> {
    if entries == [] then None
    else if EntryTimeout(Trim(entries[0])).Some? then EntryTimeout(Trim(entries[0]))
    else FirstTimeout(entries[1..])
  }

  /** `HeaderValue::to_str` accepts visible ASCII, blanks and tabs. */
  predicate Readable(s: Bytes) {
    forall i | 0 <= i < |s| :: 0x20 <= s[i] < 0x7F || s[i] == 0x09
  }

  function LockTimeout(header: Option<Bytes>): nat {
    var requested :=
      if header.None? || !Readable(header.value) then None else FirstTimeout(Split(header.value, COMMA));
    match requested
    case None => DEFAULT_LOCK_TIMEOUT
    case Some(seconds) => if seconds < MAX_LOCK_TIMEOUT then seconds else MAX_LOCK_TIMEOUT
  }

  ghost predicate Understood(entry: Bytes) {
    EntryTimeout(Trim(entry)).Some?
  }

  lemma {:induction false} FirstTimeoutIs(entries: seq<Bytes>, i: nat)
    requires i <= |entries| && (i < |entries| ==> Understood(entries[i]))
    requires forall j | 0 <= j < i :: !Understood(entries[j])
    ensures FirstTimeout(entries) == if i < |entries| then EntryTimeout(Trim(entries[i])) else None
  {
    if entries != [] && i > 0 {
      assert !Understood(entries[0]);
      FirstTimeoutIs(entries[1..], i - 1);
    }
  }

  /**
   Of a list of entries the first that is understood decides, cut to the maximum; if there
   is none, or no header, the default applies.
   */
  lemma FirstUnderstoodDecides(entries: seq<Bytes>, i: nat)
    requires entries != [] && Free(entries, COMMA)
    requires i <= |entries| && (i < |entries| ==> Understood(entries[i]))
    requires forall j | 0 <= j < i :: !Understood(entries[j])
    ensures var timeout := LockTimeout(Some(Join(entries, COMMA)));
            && timeout <= 3600
            && (i == |entries| || !Readable(Join(entries, COMMA)) ==> timeout == 600 == LockTimeout(None))
            && (i < |entries| && Readable(Join(entries, COMMA)) ==>
                  var seconds := EntryTimeout(Trim(entries[i])).value;
                  timeout <= seconds && (timeout == seconds || timeout == 3600))
  {
    SplitJoin(entries, COMMA);
    FirstTimeoutIs(entries, i);
  }

  // ---------------------------------------------------------------------------
  // What the server prints, it reads back
  // ---------------------------------------------------------------------------

  function Decimal(n: nat): (s: Bytes)
    ensures s != [] && forall i | 0 <= i < |s| :: IsDigit(s[i])
  {
    var last: byte := n % 10 + ZERO;
    if n < 10 then [last] else Decimal(n / 10) + [last]
  }

  lemma {:induction false} DigitsOfDecimal(n: nat)
    ensures Digits(Decimal(n)) == Some(n)
  {
    if n >= 10 {
      DigitsOfDecimal(n / 10);
      assert Decimal(n)[..|Decimal(n)| - 1] == Decimal(n / 10);
    }
  }

  /** A client that sends back the timeout of its lock, as `LockEntry::xml` prints it, gets the same one again. */
  lemma GrantedTimeoutIsKept(timeout: nat)
    requires timeout <= MAX_LOCK_TIMEOUT
    ensures LockTimeout(Some(SECOND + Decimal(timeout))) == timeout
  {
    var digits := Decimal(timeout);
    var printed := SECOND + digits;
    DigitsOfDecimal(timeout);
    assert printed[|SECOND|..] == digits && printed[0] == SECOND[0] && printed[|printed| - 1] == digits[|digits| - 1];
    assert Trim(printed) == printed;
    assert Lower(printed[0]) != Lower(INFINITE[0]);
    assert ParseU64(digits) == Some(timeout);
    var entries := [printed];
    assert Free(entries, COMMA);
    SplitJoin(entries, COMMA);
    assert Join(entries, COMMA) == printed;
  }

  // ---------------------------------------------------------------------------
  // What is understood
  // ---------------------------------------------------------------------------

  /** The word for no limit, in any mixture of cases. */
  ghost predicate Infinite(word: Bytes) {
    |word| == 8 && forall i | 0 <= i < 8 :: word[i] == "infinite"[i] as int || word[i] == "INFINITE"[i] as int
  }

  lemma InfiniteIs(word: Bytes)
    ensures EqualsIgnoringCase(word, INFINITE) <==> Infinite(word)
  {
    var lower, upper := "infinite", "INFINITE";
    assert forall i | 0 <= i < 8 :: INFINITE[i] == lower[i] as int == upper[i] as int + 0x20;
    assert forall b: byte, i | 0 <= i < 8 ::
      Lower(b) == Lower(INFINITE[i]) <==> b == INFINITE[i] || b == INFINITE[i] - 0x20;
  }

  function PowerOfTen(n: nat): (p: nat)
    ensures p > 0
  {
    if n == 0 then 1 else 10 * PowerOfTen(n - 1)
  }

  lemma {:induction false} TenTimes(m: nat, digit: nat, p: nat)
    requires digit < 10 && p > 0
    ensures (10 * m + digit) / (10 * p) == m / p
  {
    var q, r := m / p, m % p;
    assert (10 * p) * q == 10 * (p * q);
    BitStrings.ModUnique(10 * m + digit, 10 * p, q, 10 * r + digit);
  }

  lemma {:induction false} AllDigits(s: Bytes)
    ensures Digits(s).Some? <==> s != [] && forall i | 0 <= i < |s| :: '0' as int <= s[i] <= '9' as int
    ensures Digits(s).Some? ==> Digits(s).value < PowerOfTen(|s|)
  {
    if |s| > 1 { AllDigits(s[..|s| - 1]); }
  }

  lemma LastDigit(s: Bytes)
    requires Digits(s).Some?
    ensures s != [] && s[|s| - 1] == '0' as int + Digits(s).value % 10 && PowerOfTen(0) == 1
  {
  }

  lemma MorePower(n: nat)
    ensures PowerOfTen(n + 1) == 10 * PowerOfTen(n)
  {
  }

  /** Decimal notation: the i-th digit of the number, from the left. */
  lemma {:induction false} DigitAt(s: Bytes, i: nat)
    requires Digits(s).Some? && i < |s|
    ensures s[i] == '0' as int + Digits(s).value / PowerOfTen(|s| - 1 - i) % 10
  {
    var n, last := Digits(s).value, (s[|s| - 1] - ZERO) as nat;
    if i < |s| - 1 {
      hide PowerOfTen;
      var front := s[..|s| - 1];
      var m := Digits(front).value;
      DigitAt(front, i);
      TenTimes(m, last, PowerOfTen(|front| - 1 - i));
      MorePower(|front| - 1 - i);
      assert n == 10 * m + last;
    } else {
      LastDigit(s);
    }
  }

  /** The digits of a number, most significant first, perhaps behind zeros. */
  ghost predicate Numeral(s: Bytes, n: nat) {
    && s != [] && n < PowerOfTen(|s|)
    && forall i | 0 <= i < |s| :: s[i] == '0' as int + n / PowerOfTen(|s| - 1 - i) % 10
  }

  lemma NumeralFront(s: Bytes, n: nat)
    requires Numeral(s, n) && |s| > 1
    ensures Numeral(s[..|s| - 1], n / 10) && s[|s| - 1] == '0' as int + n % 10
  {
    var front, m, digit := s[..|s| - 1], n / 10, n % 10;
    forall i | 0 <= i < |front| ensures front[i] == '0' as int + m / PowerOfTen(|front| - 1 - i) % 10 {
      assert front[i] == s[i];
      MorePower(|front| - 1 - i);
      TenTimes(m, digit, PowerOfTen(|front| - 1 - i));
    }
    assert n / PowerOfTen(0) == n;
    MorePower(|front|);
  }

  lemma {:induction false} NumeralIsRead(s: Bytes, n: nat)
    requires Numeral(s, n)
    ensures Digits(s) == Some(n)
  {
    if |s| > 1 {
      hide Numeral;
      NumeralFront(s, n);
      NumeralIsRead(s[..|s| - 1], n / 10);
    } else {
      assert n / PowerOfTen(0) == n && PowerOfTen(1) == 10;
    }
  }

  lemma DigitsIff(s: Bytes, n: nat)
    ensures Digits(s) == Some(n) <==> Numeral(s, n)
  {
    hide PowerOfTen;
    if Digits(s) == Some(n) {
      AllDigits(s);
      forall i | 0 <= i < |s| ensures s[i] == '0' as int + n / PowerOfTen(|s| - 1 - i) % 10 {
        DigitAt(s, i);
      }
    }
    if Numeral(s, n) { NumeralIsRead(s, n); }
  }

  /** A number of seconds. */
  ghost predicate Seconds(word: Bytes, n: nat) {
    && |word| >= 7 && (forall i | 0 <= i < 7 :: word[i] == "Second-"[i] as int)
    && (Numeral(word[7..], n) || (|word| > 7 && word[7] == '+' as int && Numeral(word[8..], n)))
  }

  lemma SecondIs(word: Bytes)
    ensures SECOND <= word <==> |word| >= 7 && (forall i | 0 <= i < 7 :: word[i] == "Second-"[i] as int)
  {
    var text := "Second-";
    assert forall i | 0 <= i < 7 :: SECOND[i] == text[i] as int;
    assert |word| >= 7 ==> (SECOND <= word <==> forall i | 0 <= i < 7 :: word[i] == SECOND[i]);
  }

  lemma NoSignInNumeral(s: Bytes, n: nat)
    requires Numeral(s, n)
    ensures forall i | 0 <= i < |s| :: '0' as int <= s[i] <= '9' as int
  {
  }

  lemma NotBoth(word: Bytes)
    ensures !(Infinite(word) && SECOND <= word)
  {
    if Infinite(word) { assert word[0] == "infinite"[0] as int || word[0] == "INFINITE"[0] as int; }
  }

  /** No entry is both, and a number of seconds is one number. */
  lemma OneReading(word: Bytes, n: nat, m: nat)
    requires Seconds(word, n)
    ensures !Infinite(word) && (Seconds(word, m) ==> m == n)
  {
    hide Numeral;
    SecondIs(word);
    NotBoth(word);
    DigitsIff(word[7..], n);
    DigitsIff(word[7..], m);
    if |word| > 7 {
      DigitsIff(word[8..], n);
      DigitsIff(word[8..], m);
      if Numeral(word[7..], n) { NoSignInNumeral(word[7..], n); }
      if Numeral(word[7..], m) { NoSignInNumeral(word[7..], m); }
    }
  }

  /** What a single entry asks for. */
  lemma EntryIs(word: Bytes, n: nat)
    ensures EntryTimeout(word) == Some(n) <==>
              (Infinite(word) && n == 3600) || (Seconds(word, n) && n <= 18446744073709551615)
  {
    hide EqualsIgnoringCase, Numeral, Digits;
    InfiniteIs(word);
    SecondIs(word);
    NotBoth(word);
    if SECOND <= word {
      var rest := word[7..];
      DigitsIff(rest, n);
      if rest != [] {
        DigitsIff(rest[1..], n);
        assert rest[1..] == word[8..];
        if rest[0] == PLUS && Numeral(rest, n) { NoSignInNumeral(rest, n); }
      }
    }
  }

  ghost predicate AllBlank(s: Bytes) {
    forall i | 0 <= i < |s| :: s[i] == ' ' as int || s[i] == '\t' as int
  }

  lemma {:induction false} TrimLeftOf(blanks: Bytes, word: Bytes)
    requires AllBlank(blanks) && (word == [] || !AllBlank(word[..1]))
    ensures TrimLeft(blanks + word) == word
  {
    if blanks == [] {
      assert blanks + word == word && (word != [] ==> word[..1][0] == word[0]);
    } else {
      TrimLeftOf(blanks[1..], word);
      assert (blanks + word)[1..] == blanks[1..] + word;
    }
  }

  /** The blanks around a word go. */
  lemma {:induction false} Trimmed(left: Bytes, word: Bytes, right: Bytes)
    requires AllBlank(left) && AllBlank(right)
    requires word != [] && !AllBlank(word[..1]) && !AllBlank(word[|word| - 1..])
    ensures Trim(left + word + right) == word
    decreases |right|
  {
    var s := left + word + right;
    if right == [] {
      assert s == left + word && s[|s| - 1] == word[|word| - 1..][0];
      TrimLeftOf(left, word);
    } else {
      Trimmed(left, word, right[..|right| - 1]);
      assert s[..|s| - 1] == left + word + right[..|right| - 1] && s[|s| - 1] == right[|right| - 1];
    }
  }

  /** What is understood is visible, and holds no comma. */
  lemma WordIsPlain(word: Bytes, n: nat)
    requires Infinite(word) || Seconds(word, n)
    ensures forall i | 0 <= i < |word| :: 0x20 < word[i] < 0x7F && word[i] != COMMA
    ensures word != [] && !AllBlank(word[..1]) && !AllBlank(word[|word| - 1..])
  {
    if Seconds(word, n) {
      var digits := if Numeral(word[7..], n) then word[7..] else word[8..];
      NoSignInNumeral(digits, n);
      assert forall i | 0 <= i < |digits| :: digits[i] == word[|word| - |digits| + i];
    }
    assert 0x20 < word[..1][0] && 0x20 < word[|word| - 1..][0];
  }

  /**
   Without a header a lock lasts ten minutes. "infinite" in any mixture of cases asks for the
   longest time, an hour; so does any number of seconds beyond it that fits 64 bits.
   */
  lemma TimeoutIs(left: Bytes, word: Bytes, right: Bytes, n: nat)
    requires AllBlank(left) && AllBlank(right)
    ensures LockTimeout(None) == 600
    ensures Infinite(word) ==> LockTimeout(Some(left + word + right)) == 3600
    ensures Seconds(word, n) ==>
              LockTimeout(Some(left + word + right))
              == if n <= 3600 then n else if n <= 18446744073709551615 then 3600 else 600
  {
    hide Digits, Trim, Numeral, EntryTimeout;
    if Infinite(word) || Seconds(word, n) {
      var header := left + word + right;
      WordIsPlain(word, n);
      Trimmed(left, word, right);
      EntryIs(word, 3600);
      EntryIs(word, n);
      var entries := [header];
      SplitJoin(entries, COMMA);
      assert entries[1..] == [];
      if Seconds(word, n) && EntryTimeout(word).Some? {
        EntryIs(word, EntryTimeout(word).value);
        OneReading(word, n, EntryTimeout(word).value);
      }
      assert FirstTimeout(entries) == EntryTimeout(word);
      assert Seconds(word, n) ==> EntryTimeout(word) == if n <= 18446744073709551615 then Some(n) else None;
    }
  }
}
