// UTF-8 as the decoder sees it: the well-formed byte sequences of Table 3-7 in
// section 3.9 of the Unicode Standard, the values they encode (Table 3-6), the
// scan that finds the first error, and replacement by maximal subparts.
module Utf8 {
  import opened Options
  import opened Sequences

  newtype Byte = b: int | 0 <= b < 256
  newtype Scalar = v: int | 0 <= v < 0xD800 || 0xE000 <= v < 0x110000

  const REPLACEMENT: Scalar := 0xFFFD

  // ----- Table 3-7 -----

  predicate Trail(b: Byte) { 0x80 <= b <= 0xBF }

  // One row of the table per disjunct.
  predicate WellFormedCharacter(s: seq<Byte>) {
    || (|s| == 1 && s[0] <= 0x7F)
    || (|s| == 2 && 0xC2 <= s[0] <= 0xDF && Trail(s[1]))
    || (|s| == 3 && s[0] == 0xE0 && 0xA0 <= s[1] <= 0xBF && Trail(s[2]))
    || (|s| == 3 && 0xE1 <= s[0] <= 0xEC && Trail(s[1]) && Trail(s[2]))
    || (|s| == 3 && s[0] == 0xED && 0x80 <= s[1] <= 0x9F && Trail(s[2]))
    || (|s| == 3 && 0xEE <= s[0] <= 0xEF && Trail(s[1]) && Trail(s[2]))
    || (|s| == 4 && s[0] == 0xF0 && 0x90 <= s[1] <= 0xBF && Trail(s[2]) && Trail(s[3]))
    || (|s| == 4 && 0xF1 <= s[0] <= 0xF3 && Trail(s[1]) && Trail(s[2]) && Trail(s[3]))
    || (|s| == 4 && s[0] == 0xF4 && 0x80 <= s[1] <= 0x8F && Trail(s[2]) && Trail(s[3]))
  }

  // An initial subsequence of some well-formed character.
  ghost predicate Initial(s: seq<Byte>) {
    exists rest: seq<Byte> :: WellFormedCharacter(s + rest)
  }

  // The length announced by a leading byte; 0 for a byte that leads nothing.
  function Need(lead: Byte): nat {
    if lead <= 0x7F then 1
    else if 0xC2 <= lead <= 0xDF then 2
    else if 0xE0 <= lead <= 0xEF then 3
    else if 0xF0 <= lead <= 0xF4 then 4
    else 0
  }

  // The least second byte allowed after `lead`.
  function LeastSecond(lead: Byte): Byte {
    if lead == 0xE0 then 0xA0 else if lead == 0xF0 then 0x90 else 0x80
  }

  function LeastFitting(lead: Byte, position: nat): Byte {
    if position == 1 then LeastSecond(lead) else 0x80
  }

  predicate Fits(lead: Byte, position: nat, b: Byte) {
    if position != 1 then Trail(b)
    else LeastSecond(lead) <= b <= (if lead == 0xED then 0x9F else if lead == 0xF4 then 0x8F else 0xBF)
  }

  // The `n` bytes from `i` on are fit to stand one after the other.
  ghost predicate FitsUpTo(s: seq<Byte>, i: nat, n: nat)
    requires i + n <= |s|
  {
    forall p :: i < p < i + n ==> Fits(s[i], p - i, s[p])
  }

  // The rows of the table, said once more by lengths and ranges.
  lemma RowsFit(c: seq<Byte>)
    ensures WellFormedCharacter(c) <==> c != [] && |c| == Need(c[0]) && FitsUpTo(c, 0, |c|)
  {
    if c != [] && |c| == Need(c[0]) && FitsUpTo(c, 0, |c|) {
      assert |c| > 1 ==> Fits(c[0], 1, c[1]);
      assert |c| > 2 ==> Fits(c[0], 2, c[2]);
      assert |c| > 3 ==> Fits(c[0], 3, c[3]);
    }
  }

  // A shortest completion of a sequence whose bytes all fit.
  function Completion(s: seq<Byte>): seq<Byte>
    requires s != [] && |s| <= Need(s[0])
  {
    [LeastFitting(s[0], |s|), 0x80, 0x80][..Need(s[0]) - |s|]
  }

  lemma InitialFits(s: seq<Byte>)
    requires s != []
    ensures Initial(s) <==> |s| <= Need(s[0]) && FitsUpTo(s, 0, |s|)
  {
    if Initial(s) {
      var rest: seq<Byte> :| WellFormedCharacter(s + rest);
      var c := s + rest;
      RowsFit(c);
      forall k | 0 < k < |s| ensures Fits(s[0], k, s[k]) {
        assert s[k] == c[k];
      }
    }
    if |s| <= Need(s[0]) && FitsUpTo(s, 0, |s|) {
      var c := s + Completion(s);
      assert |c| == Need(s[0]) && c[0] == s[0];
      forall k | 0 < k < |c| ensures Fits(c[0], k, c[k]) {
        assert c[k] == if |s| <= k then LeastFitting(s[0], k) else s[k];
      }
      RowsFit(c);
    }
  }

  // ----- Table 3-6 -----

  // The `n` bytes from `i` on read as digits in base 64, each trailing byte
  // without its mark.
  function Digits(s: seq<Byte>, i: nat, n: nat): int
    requires 1 <= n && i + n <= |s|
  {
    if n == 1 then s[i] as int
    else Digits(s, i, n - 1) * 64 + (s[i + n - 1] as int - 0x80)
  }

  // What the length mark in the leading byte adds to the digits.
  function Mark(length: nat): int {
    if length <= 1 then 0
    else if length == 2 then 0xC0 * 64
    else if length == 3 then 0xE0 * 4096
    else 0xF0 * 262144
  }

  // The value of the character that fills the `n` bytes from `i` on.
  function ValueAt(s: seq<Byte>, i: nat, n: nat): Scalar
    requires i + n <= |s| && 1 <= n && Need(s[i]) == n && FitsUpTo(s, i, n)
  {
    DigitsInRange(s, i, n);
    (Digits(s, i, n) - Mark(n)) as Scalar
  }

  lemma DigitsInRange(s: seq<Byte>, i: nat, n: nat)
    requires i + n <= |s| && 1 <= n && Need(s[i]) == n && FitsUpTo(s, i, n)
    ensures var v := Digits(s, i, n) - Mark(n);
            && (0 <= v < 0xD800 || 0xE000 <= v < 0x110000)
            && n == (if v < 0x80 then 1 else if v < 0x800 then 2 else if v < 0x10000 then 3 else 4)
  {
    assert Digits(s, i, 1) == s[i] as int;
    if n > 1 {
      assert Fits(s[i], 1, s[i + 1]);
      assert Digits(s, i, 2) == Digits(s, i, 1) * 64 + (s[i + 1] as int - 0x80);
    }
    if n > 2 {
      assert Fits(s[i], 2, s[i + 2]);
      assert Digits(s, i, 3) == Digits(s, i, 2) * 64 + (s[i + 2] as int - 0x80);
    }
    if n > 3 {
      assert Fits(s[i], 3, s[i + 3]);
      assert Digits(s, i, 4) == Digits(s, i, 3) * 64 + (s[i + 3] as int - 0x80);
    }
  }

  function Value(c: seq<Byte>): Scalar
    requires WellFormedCharacter(c)
  {
    RowsFit(c);
    ValueAt(c, 0, |c|)
  }

  function EncodeScalar(v: Scalar): (c: seq<Byte>)
    ensures WellFormedCharacter(c)
  {
    var n := v as int;
    if n < 0x80 then [n as Byte]
    else
      var (high, low) := (n / 64, n % 64);
      if n < 0x800 then [(0xC0 + high) as Byte, (0x80 + low) as Byte]
      else
        var (higher, middle) := (high / 64, high % 64);
        if n < 0x10000 then [(0xE0 + higher) as Byte, (0x80 + middle) as Byte, (0x80 + low) as Byte]
        else [(0xF0 + higher / 64) as Byte, (0x80 + higher % 64) as Byte, (0x80 + middle) as Byte, (0x80 + low) as Byte]
  }

  // Encoding and value are inverse to each other: every scalar value has one
  // encoding and every row of the table encodes one scalar value.
  lemma ValueEncode(v: Scalar)
    ensures Value(EncodeScalar(v)) == v
  {
    var c := EncodeScalar(v);
    assert Digits(c, 0, 1) == c[0] as int;
    if |c| > 1 { assert Digits(c, 0, 2) == Digits(c, 0, 1) * 64 + (c[1] as int - 0x80); }
    if |c| > 2 { assert Digits(c, 0, 3) == Digits(c, 0, 2) * 64 + (c[2] as int - 0x80); }
    if |c| > 3 { assert Digits(c, 0, 4) == Digits(c, 0, 3) * 64 + (c[3] as int - 0x80); }
  }

  lemma EncodeValue(c: seq<Byte>)
    requires WellFormedCharacter(c)
    ensures EncodeScalar(Value(c)) == c
  {
    var d := EncodeScalar(Value(c));
    ValueEncode(Value(c));
    ValueIsDigits(c);
    ValueIsDigits(d);
    assert |c| == |d| && Digits(c, 0, |c|) == Digits(d, 0, |d|);
    DigitsInjective(c, d, |c|);
    Whole(c);
    Whole(d);
  }

  lemma Whole<T>(s: seq<T>)
    ensures s[..|s|] == s
  {
  }

  // A value determines the length of its character and the digits.
  lemma ValueIsDigits(c: seq<Byte>)
    requires WellFormedCharacter(c)
    ensures var v := Value(c) as int;
            && |c| == (if v < 0x80 then 1 else if v < 0x800 then 2 else if v < 0x10000 then 3 else 4)
            && Digits(c, 0, |c|) == v + Mark(|c|)
  {
    RowsFit(c);
    DigitsInRange(c, 0, |c|);
  }

  // The shortest and longest encodings of each length, and the examples of section
  // 7 of RFC 3629.
  lemma EncodeExamples()
    ensures EncodeScalar(0x00) == [0x00] && EncodeScalar(0x7F) == [0x7F]
    ensures EncodeScalar(0x80) == [0xC2, 0x80] && EncodeScalar(0x7FF) == [0xDF, 0xBF]
    ensures EncodeScalar(0x800) == [0xE0, 0xA0, 0x80] && EncodeScalar(0xFFFF) == [0xEF, 0xBF, 0xBF]
    ensures EncodeScalar(0x10000) == [0xF0, 0x90, 0x80, 0x80] && EncodeScalar(0x10FFFF) == [0xF4, 0x8F, 0xBF, 0xBF]
    ensures EncodeScalar(0x2262) == [0xE2, 0x89, 0xA2] && EncodeScalar(0x391) == [0xCE, 0x91]
    ensures EncodeScalar(0xD55C) == [0xED, 0x95, 0x9C] && EncodeScalar(0x65E5) == [0xE6, 0x97, 0xA5]
    ensures EncodeScalar(0xFEFF) == [0xEF, 0xBB, 0xBF] && EncodeScalar(0x233B4) == [0xF0, 0xA3, 0x8E, 0xB4]
  {
  }

  lemma {:induction false} DigitsInjective(c: seq<Byte>, d: seq<Byte>, n: nat)
    requires 1 <= n <= |c| == |d| && Digits(c, 0, n) == Digits(d, 0, n)
    requires forall k :: 1 <= k < n ==> Trail(c[k]) && Trail(d[k])
    ensures c[..n] == d[..n]
  {
    if n == 1 {
    } else {
      var (x, y) := (c[n - 1] as int - 0x80, d[n - 1] as int - 0x80);
      assert Digits(c, 0, n - 1) * 64 + x == Digits(d, 0, n - 1) * 64 + y;
      DigitsInjective(c, d, n - 1);
      assert c[..n] == c[..n - 1] + [c[n - 1]] && d[..n] == d[..n - 1] + [d[n - 1]];
    }
  }

  function Encode(text: seq<Scalar>): seq<Byte> {
    if text == [] then [] else EncodeScalar(text[0]) + Encode(text[1..])
  }

  // Well-formed text: the encoding of a sequence of scalar values.
  ghost predicate WellFormed(s: seq<Byte>) {
    exists text: seq<Scalar> :: Encode(text) == s
  }

  // ----- the scan -----

  // What stands at a position of a byte sequence.
  datatype Head = Character(length: nat, value: Scalar) | Illformed(length: nat) | Truncated

  // The scalar value shown for it.
  function Shown(h: Head): Scalar {
    if h.Character? then h.value else REPLACEMENT
  }

  // What stands at `i` when the input ends at `end`: bytes are taken one at a
  // time, and the first verdict other than truncation is final.
  function Scan(s: seq<Byte>, i: nat, end: nat): (h: Head)
    requires i < end <= |s|
    ensures !h.Truncated? ==> 1 <= h.length && i + h.length <= end
    decreases end, 0
  {
    if i + 1 < end && !Scan(s, i, end - 1).Truncated? then Scan(s, i, end - 1)
    else Look(s, i, end)
  }

  // The verdict on the last byte before `end` when none was given before it.
  function Look(s: seq<Byte>, i: nat, end: nat): (h: Head)
    requires i < end <= |s|
    requires i + 1 < end ==> Scan(s, i, end - 1).Truncated?
    ensures !h.Truncated? ==> 1 <= h.length && i + h.length <= end
    decreases end - 1, 3
  {
    var n := end - i;
    if n > 1 && !Fits(s[i], n - 1, s[end - 1]) then Illformed(n - 1)
    else if Need(s[i]) == 0 then Illformed(1)
    else if Need(s[i]) == n then (StillFits(s, i, end); Character(n, ValueAt(s, i, n)))
    else Truncated
  }

  lemma StillFits(s: seq<Byte>, i: nat, end: nat)
    requires i < end <= |s|
    requires i + 1 < end ==> Scan(s, i, end - 1).Truncated?
    ensures FitsUpTo(s, i, end - i - 1) && (i + 1 < end ==> end - i - 1 < Need(s[i]))
    decreases end - 1, 2
  {
    if i + 1 < end {
      ScanFits(s, i, end - 1);
    }
  }

  // What a verdict says about the bytes.
  ghost predicate Justified(s: seq<Byte>, i: nat, end: nat, h: Head)
    requires i < end <= |s|
  {
    match h
    case Character(n, value) =>
      i + n <= end && 1 <= n && Need(s[i]) == n && FitsUpTo(s, i, n) && value == ValueAt(s, i, n)
    case Truncated => end - i < Need(s[i]) && FitsUpTo(s, i, end - i)
    case Illformed(n) =>
      && 1 <= n && i + n <= end && FitsUpTo(s, i, n)
      && if Need(s[i]) == 0 then n == 1 else n < Need(s[i]) && i + n < end && !Fits(s[i], n, s[i + n])
  }

  lemma {:induction false} ScanFits(s: seq<Byte>, i: nat, end: nat)
    requires i < end <= |s|
    ensures Justified(s, i, end, Scan(s, i, end))
    decreases end, 1
  {
    if i + 1 == end {
    } else {
      ScanFits(s, i, end - 1);
    }
  }

  // The scan against Table 3-7 alone: it reports a character exactly when one
  // stands at the front, truncation exactly when the whole input could still
  // grow into one, and otherwise the maximal subpart of the ill-formed
  // sequence (the longest initial subsequence of a character, or one byte).
  lemma ScanMeaning(s: seq<Byte>)
    requires s != []
    ensures var head := Scan(s, 0, |s|);
            && (head.Character? <==> exists n :: 1 <= n <= |s| && WellFormedCharacter(s[..n]))
            && (head.Character? ==>
                  WellFormedCharacter(s[..head.length]) && Value(s[..head.length]) == head.value)
            && (head.Truncated? <==> Initial(s) && !head.Character?)
            && (head.Illformed? ==>
                  && (head.length == 1 || Initial(s[..head.length]))
                  && (forall m :: head.length < m <= |s| ==> !Initial(s[..m])))
  {
    var head := Scan(s, 0, |s|);
    ScanFits(s, 0, |s|);
    forall m | 1 <= m <= |s| ensures Initial(s[..m]) <==> m <= Need(s[0]) && FitsUpTo(s, 0, m) {
      InitialFits(s[..m]);
      FitsPrefix(s, m);
    }
    forall n | 1 <= n <= |s| ensures WellFormedCharacter(s[..n]) <==> n == Need(s[0]) && FitsUpTo(s, 0, n) {
      RowsFit(s[..n]);
      FitsPrefix(s, n);
    }
    assert s[..|s|] == s;
    if head.Character? {
      assert WellFormedCharacter(s[..head.length]);
      SameDigits(s[..head.length], 0, s, 0, head.length);
    }
    if head.Illformed? && Need(s[0]) != 0 {
      assert forall m :: head.length < m <= |s| ==> !FitsUpTo(s, 0, m);
    }
  }

  lemma FitsPrefix(s: seq<Byte>, n: nat)
    requires 1 <= n <= |s|
    ensures FitsUpTo(s[..n], 0, n) <==> FitsUpTo(s, 0, n)
  {
    assert forall k :: 0 <= k < n ==> s[..n][k] == s[k];
  }

  // The `n` bytes of `s` from `i` on are those of `t` from `j` on.
  ghost predicate SameBytes(s: seq<Byte>, i: nat, t: seq<Byte>, j: nat, n: nat) {
    && i + n <= |s| && j + n <= |t|
    && forall p :: i <= p < i + n ==> s[p] == t[p - i + j]
  }

  lemma {:induction false} SameDigits(s: seq<Byte>, i: nat, t: seq<Byte>, j: nat, n: nat)
    requires 1 <= n && SameBytes(s, i, t, j, n)
    ensures Digits(s, i, n) == Digits(t, j, n)
  {
    assert s[i + n - 1] == t[j + n - 1];
    if n == 1 {
    } else {
      SameDigits(s, i, t, j, n - 1);
    }
  }

  lemma {:induction false} ScanSame(s: seq<Byte>, i: nat, t: seq<Byte>, j: nat, n: nat)
    requires 1 <= n && SameBytes(s, i, t, j, n)
    ensures Scan(s, i, i + n) == Scan(t, j, j + n)
  {
    assert s[i + n - 1] == t[j + n - 1] && s[i] == t[j];
    SameDigits(s, i, t, j, n);
    if n == 1 {
    } else {
      ScanSame(s, i, t, j, n - 1);
    }
  }

  // More input behind the bytes changes no verdict other than truncation.
  lemma {:induction false} ScanFinal(s: seq<Byte>, i: nat, end: nat, end': nat)
    requires i < end <= end' <= |s| && !Scan(s, i, end).Truncated?
    ensures Scan(s, i, end') == Scan(s, i, end)
  {
    if end == end' {
    } else {
      ScanFinal(s, i, end, end' - 1);
    }
  }

  // A verdict depends on the bytes looked at only.
  lemma ScanStable(s: seq<Byte>, i: nat, end: nat, t: seq<Byte>, j: nat, end': nat)
    requires i < end <= |s| && j < end' <= |t|
    requires end - i <= end' - j && SameBytes(s, i, t, j, end - i)
    requires !Scan(s, i, end).Truncated? || end - i == end' - j
    ensures Scan(t, j, end') == Scan(s, i, end)
  {
    ScanSame(s, i, t, j, end - i);
    if !Scan(s, i, end).Truncated? {
      ScanFinal(t, j, j + (end - i), end');
    }
  }

  lemma ScanEncoded(v: Scalar, rest: seq<Byte>)
    ensures var s := EncodeScalar(v) + rest;
            Scan(s, 0, |s|) == Character(|EncodeScalar(v)|, v)
  {
    var c := EncodeScalar(v);
    var s := c + rest;
    ValueEncode(v);
    RowsFit(c);
    ScanFits(c, 0, |c|);
    ScanStable(c, 0, |c|, s, 0, |s|);
  }

  // ----- the library calls the decoder makes -----

  // `std::str::from_utf8` on the bytes from `i` to `end`: valid, or the length
  // of the valid prefix and the length of the error behind it (none when the
  // input just ends too early).
  datatype Check = Valid | Invalid(validUpTo: nat, errorLength: Option<nat>)

  function FromUtf8(s: seq<Byte>, i: nat, end: nat): (r: Check)
    requires i <= end <= |s|
    ensures r.Invalid? ==> i + r.validUpTo < end
    ensures r.Invalid? && r.errorLength.Some? ==>
              1 <= r.errorLength.value && i + r.validUpTo + r.errorLength.value <= end
    decreases end - i
  {
    if i == end then Valid
    else match Scan(s, i, end)
      case Illformed(n) => Invalid(0, Some(n))
      case Truncated => Invalid(0, None)
      case Character(n, _) =>
        match FromUtf8(s, i + n, end)
        case Valid => Valid
        case Invalid(valid, error) => Invalid(n + valid, error)
  }

  // The text of the characters from `i` on, up to the first error or `end`.
  function Text(s: seq<Byte>, i: nat, end: nat): seq<Scalar>
    requires i <= end <= |s|
    decreases end - i
  {
    if i == end || !Scan(s, i, end).Character? then []
    else [Scan(s, i, end).value] + Text(s, i + Scan(s, i, end).length, end)
  }

  // `String::from_utf8_lossy` from `i` on: every maximal subpart becomes one
  // U+FFFD.
  function LossyFrom(s: seq<Byte>, i: nat): seq<Scalar>
    requires i <= |s|
    decreases |s| - i
  {
    if i == |s| then [] else
      var head := Scan(s, i, |s|);
      if head.Truncated? then [REPLACEMENT] else [Shown(head)] + LossyFrom(s, i + head.length)
  }

  function Lossy(s: seq<Byte>): seq<Scalar> {
    LossyFrom(s, 0)
  }

  // The error `from_utf8` reports is where the scan stops finding characters.
  lemma {:induction false} PrefixValid(s: seq<Byte>, i: nat, end: nat)
    requires i <= end <= |s| && FromUtf8(s, i, end).Invalid?
    ensures var Invalid(valid, error) := FromUtf8(s, i, end);
            && FromUtf8(s, i, i + valid).Valid?
            && Scan(s, i + valid, end) == (if error.Some? then Illformed(error.value) else Truncated)
    decreases end - i
  {
    var valid := FromUtf8(s, i, end).validUpTo;
    if !Scan(s, i, end).Character? {
    } else {
      var n := Scan(s, i, end).length;
      PrefixValid(s, i + n, end);
      ScanCut(s, i, i + valid, end);
    }
  }

  // A character is found whatever follows it.
  lemma ScanCut(s: seq<Byte>, i: nat, end: nat, end': nat)
    requires i < end <= end' <= |s|
    requires Scan(s, i, end').Character? && i + Scan(s, i, end').length <= end
    ensures Scan(s, i, end) == Scan(s, i, end')
  {
    ScanFits(s, i, end);
    ScanFits(s, i, end');
    assert !Scan(s, i, end).Truncated?;
    ScanFinal(s, i, end, end');
  }

  // ----- encoding and decoding -----

  lemma EncodePrepend(v: Scalar, text: seq<Scalar>)
    ensures Encode([v] + text) == EncodeScalar(v) + Encode(text)
  {
    assert ([v] + text)[1..] == text;
  }

  lemma SliceOfSlice<T>(s: seq<T>, i: nat, end: nat, n: nat)
    requires i + n <= end <= |s|
    ensures s[i..end][..n] == s[i..i + n]
  {
  }

  lemma SliceCut<T>(s: seq<T>, i: nat, m: nat, end: nat)
    requires i <= m <= end <= |s|
    ensures s[i..end] == s[i..m] + s[m..end]
  {
  }

  lemma CharacterAt(s: seq<Byte>, i: nat, end: nat)
    requires i < end <= |s| && Scan(s, i, end).Character?
    ensures EncodeScalar(Scan(s, i, end).value) == s[i..i + Scan(s, i, end).length]
  {
    var t := s[i..end];
    ScanStable(s, i, end, t, 0, |t|);
    ScanMeaning(t);
    var n := Scan(t, 0, |t|).length;
    EncodeValue(t[..n]);
    SliceOfSlice(s, i, end, n);
  }

  lemma {:induction false} EncodeText(s: seq<Byte>, i: nat, end: nat)
    requires i <= end <= |s| && FromUtf8(s, i, end).Valid?
    ensures Encode(Text(s, i, end)) == s[i..end]
    decreases end - i
  {
    if i == end {
    } else {
      var Character(n, value) := Scan(s, i, end);
      EncodeText(s, i + n, end);
      EncodePrepend(value, Text(s, i + n, end));
      CharacterAt(s, i, end);
      SliceCut(s, i, i + n, end);
    }
  }

  lemma {:induction false} SameCheck(s: seq<Byte>, i: nat, end: nat, t: seq<Byte>, j: nat, end': nat)
    requires i <= end <= |s| && j <= end' <= |t| && end - i == end' - j
    requires SameBytes(s, i, t, j, end - i)
    ensures FromUtf8(s, i, end) == FromUtf8(t, j, end') && Text(s, i, end) == Text(t, j, end')
    decreases end - i
  {
    if i == end {
    } else {
      ScanStable(s, i, end, t, j, end');
      if Scan(s, i, end).Character? {
        var n := Scan(s, i, end).length;
        SameCheck(s, i + n, end, t, j + n, end');
      }
    }
  }

  lemma {:induction false} EncodeIsValid(text: seq<Scalar>)
    ensures var s := Encode(text);
            FromUtf8(s, 0, |s|).Valid? && Text(s, 0, |s|) == text
  {
    if text == [] {
    } else {
      var c, rest := EncodeScalar(text[0]), Encode(text[1..]);
      var s := c + rest;
      EncodeIsValid(text[1..]);
      ScanEncoded(text[0], rest);
      SameCheck(s, |c|, |s|, rest, 0, |rest|);
    }
  }

  // `from_utf8` accepts exactly the encodings of scalar values, and what it
  // accepts is the text that was encoded.
  lemma FromUtf8Meaning(s: seq<Byte>)
    ensures FromUtf8(s, 0, |s|).Valid? <==> WellFormed(s)
    ensures FromUtf8(s, 0, |s|).Valid? ==> Encode(Text(s, 0, |s|)) == s
  {
    if FromUtf8(s, 0, |s|).Valid? {
      EncodeText(s, 0, |s|);
    }
    if WellFormed(s) {
      var text :| Encode(text) == s;
      EncodeIsValid(text);
    }
  }
}
