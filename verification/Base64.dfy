// Base64 with padding, as in section 4 of RFC 4648: the encoder works on bits,
// its specification on the numbers that groups of three bytes stand for.
module Base64 {
  import opened Utf8
  import opened Sequences

  // ----- the alphabet -----

  type Sextet = v: int | 0 <= v < 64

  function Symbol(v: Sextet): char {
    if v < 26 then 'A' + v as char
    else if v < 52 then 'a' + (v - 26) as char
    else if v < 62 then '0' + (v - 52) as char
    else if v == 62 then '+' else '/'
  }

  predicate IsSymbol(c: char) {
    'A' <= c <= 'Z' || 'a' <= c <= 'z' || '0' <= c <= '9' || c == '+' || c == '/'
  }

  function SymbolValue(c: char): (v: int)
    requires IsSymbol(c)
    ensures 0 <= v < 64
  {
    if 'A' <= c <= 'Z' then c as int - 'A' as int
    else if 'a' <= c <= 'z' then c as int - 'a' as int + 26
    else if '0' <= c <= '9' then c as int - '0' as int + 52
    else if c == '+' then 62 else 63
  }

  lemma SymbolsAreValues(v: Sextet, c: char)
    ensures IsSymbol(Symbol(v)) && SymbolValue(Symbol(v)) == v && Symbol(v) != '='
    ensures IsSymbol(c) ==> Symbol(SymbolValue(c)) == c
  {
  }

  // ----- groups of 24 bits -----

  function Word(a: Byte, b: Byte, c: Byte): nat {
    (a as int * 256 + b as int) * 256 + c as int
  }

  function WordOf(p: Sextet, q: Sextet, r: Sextet, s: Sextet): nat {
    ((p * 64 + q) * 64 + r) * 64 + s
  }

  function Quad(w: nat): (q: string)
    requires w < 0x100_0000
    ensures |q| == 4
  {
    [Symbol(w / 262144), Symbol(w / 4096 % 64), Symbol(w / 64 % 64), Symbol(w % 64)]
  }

  // Every three bytes become four symbols; one or two left over are filled up
  // with zero bits, and the symbols they do not reach are padding.
  function Encode(s: seq<Byte>): string {
    if |s| == 0 then ""
    else if |s| == 1 then Quad(Word(s[0], 0, 0))[..2] + "=="
    else if |s| == 2 then Quad(Word(s[0], s[1], 0))[..3] + "="
    else Quad(Word(s[0], s[1], s[2])) + Encode(s[3..])
  }

  predicate Symbols(e: string, n: nat)
    requires n <= |e|
  {
    forall i :: 0 <= i < n ==> IsSymbol(e[i])
  }

  // Groups of four symbols, the last of which may end in one or two `=`.
  predicate Grammar(e: string) {
    e == "" ||
    (|e| >= 4 && Symbols(e, 2) &&
     if e[3] != '=' then IsSymbol(e[2]) && IsSymbol(e[3]) && Grammar(e[4..])
     else |e| == 4 && (e[2] == '=' || IsSymbol(e[2])))
  }

  // What is decoded of a text of that form. Bits beyond the last whole byte are
  // dropped.
  function Decode(e: string): seq<Byte>
    requires Grammar(e)
  {
    if e == "" then []
    else
      var (p, q) := (SymbolValue(e[0]), SymbolValue(e[1]));
      if e[3] != '=' then
        Triple(WordOf(p, q, SymbolValue(e[2]), SymbolValue(e[3]))) + Decode(e[4..])
      else if e[2] != '=' then
        Triple(WordOf(p, q, SymbolValue(e[2]), 0))[..2]
      else
        Triple(WordOf(p, q, 0, 0))[..1]
  }

  function Triple(w: nat): (t: seq<Byte>)
    requires w < 0x100_0000
    ensures |t| == 3
  {
    [(w / 65536) as Byte, (w / 256 % 256) as Byte, (w % 256) as Byte]
  }

  // ----- the encoder -----

  lemma Shift2(b: bv8)
    ensures (b >> 2) as int == b as int / 4
  {
  }

  lemma Shift4(b: bv8)
    ensures (b >> 4) as int == b as int / 16
  {
  }

  lemma Shift6(b: bv8)
    ensures (b >> 6) as int == b as int / 64
  {
  }

  lemma Mask2(b: bv8)
    ensures (b & 0x03) as int == b as int % 4
  {
  }

  lemma Mask4(b: bv8)
    ensures (b & 0x0f) as int == b as int % 16
  {
  }

  lemma Mask6(b: bv8)
    ensures (b & 0x3f) as int == b as int % 64
  {
  }

  // The four symbols' bits, as the encoder cuts them out of three bytes.
  function FirstBits(a: bv8): (v: Sextet)
    ensures v == a as int / 4
  {
    Shift2(a);
    (a >> 2) as int
  }

  function SecondBits(a: bv8, b: bv8): (v: Sextet)
    ensures v == a as int % 4 * 16 + b as int / 16
  {
    SecondShifted(a, b);
    (((a & 0x03) << 4) | (b >> 4)) as int
  }

  function ThirdBits(b: bv8, c: bv8): (v: Sextet)
    ensures v == b as int % 16 * 4 + c as int / 64
  {
    ThirdShifted(b, c);
    (((b & 0x0f) << 2) | (c >> 6)) as int
  }

  function FourthBits(c: bv8): (v: Sextet)
    ensures v == c as int % 64
  {
    Mask6(c);
    (c & 0x3f) as int
  }

  lemma SecondShifted(a: bv8, b: bv8)
    ensures (((a & 0x03) << 4) | (b >> 4)) as int == a as int % 4 * 16 + b as int / 16
  {
    var r := ((a & 0x03) << 4) | (b >> 4);
    assert r >> 4 == a & 0x03;
    assert r & 0x0f == b >> 4;
    Shift4(r);
    Mask4(r);
    Mask2(a);
    Shift4(b);
  }

  lemma ThirdShifted(a: bv8, b: bv8)
    ensures (((a & 0x0f) << 2) | (b >> 6)) as int == a as int % 16 * 4 + b as int / 64
  {
    var r := ((a & 0x0f) << 2) | (b >> 6);
    assert r >> 2 == a & 0x0f;
    assert r & 0x03 == b >> 6;
    Shift2(r);
    Mask2(r);
    Mask4(a);
    Shift6(b);
  }

  lemma DigitsOfWord(p: Sextet, q: Sextet, r: Sextet, s: Sextet)
    ensures var w := WordOf(p, q, r, s);
            w / 262144 == p && w / 4096 % 64 == q && w / 64 % 64 == r && w % 64 == s
  {
    var w := WordOf(p, q, r, s);
    assert w / 64 == (p * 64 + q) * 64 + r;
    assert w / 4096 == p * 64 + q;
  }

  // The bits the encoder picks are the digits of the 24-bit number to base 64.
  lemma Regrouped(a: Byte, b: Byte, c: Byte)
    ensures var (x, y, z) := (a as int, b as int, c as int);
            Word(a, b, c) == WordOf(x / 4, x % 4 * 16 + y / 16, y % 16 * 4 + z / 64, z % 64)
  {
  }

  lemma QuadOfBits(a: Byte, b: Byte, c: Byte)
    ensures var (x, y, z) := (a as int, b as int, c as int);
            Quad(Word(a, b, c)) ==
            [Symbol(x / 4), Symbol(x % 4 * 16 + y / 16), Symbol(y % 16 * 4 + z / 64), Symbol(z % 64)]
  {
    var (x, y, z) := (a as int, b as int, c as int);
    Regrouped(a, b, c);
    DigitsOfWord(x / 4, x % 4 * 16 + y / 16, y % 16 * 4 + z / 64, z % 64);
  }

  // Machine bytes as numbers.
  function Numbers(bits: seq<bv8>): (s: seq<Byte>)
    ensures |s| == |bits|
    ensures forall i :: 0 <= i < |s| ==> s[i] == bits[i] as Byte
  {
    seq(|bits|, i requires 0 <= i < |bits| => bits[i] as Byte)
  }

  lemma QuadOfSymbols(a: bv8, b: bv8, c: bv8)
    ensures Quad(Word(a as Byte, b as Byte, c as Byte)) ==
            [Symbol(FirstBits(a)), Symbol(SecondBits(a, b)), Symbol(ThirdBits(b, c)), Symbol(FourthBits(c))]
  {
    QuadOfBits(a as Byte, b as Byte, c as Byte);
  }

  // One chunk of the encoder's input.
  method EncodeChunk(chunk: seq<bv8>) returns (quad: string)
    requires 1 <= |chunk| <= 3
    ensures quad == Encode(Numbers(chunk))
  {
    var first := chunk[0];
    var second := if |chunk| > 1 then chunk[1] else 0;
    var third := if |chunk| > 2 then chunk[2] else 0;
    QuadOfSymbols(first, second, third);
    quad := [Symbol(FirstBits(first))];
    quad := quad + [Symbol(SecondBits(first, second))];
    quad := quad + [if |chunk| > 1 then Symbol(ThirdBits(second, third)) else '='];
    quad := quad + [if |chunk| > 2 then Symbol(FourthBits(third)) else '='];
  }

  method EncodeBase64(input: seq<bv8>) returns (output: string)
    ensures output == Encode(Numbers(input))
  {
    output := "";
    var i := 0;
    ghost var s := Numbers(input);
    while i < |input|
      invariant i <= |input|
      invariant output + Encode(s[i..]) == Encode(s)
    {
      var end := if i + 3 <= |input| then i + 3 else |input|;
      var quad := EncodeChunk(input[i..end]);
      assert Numbers(input[i..end]) == s[i..end];
      EncodeCut(s[i..], end - i);
      SliceOfDrop(s, i, i, end);
      Associative(output, quad, Encode(s[end..]));
      output := output + quad;
      i := end;
    }
  }

  lemma EncodeTriple(t: seq<Byte>)
    requires |t| == 3
    ensures Encode(t) == Quad(Word(t[0], t[1], t[2]))
  {
    assert t[3..] == [];
    assert Quad(Word(t[0], t[1], t[2])) + "" == Quad(Word(t[0], t[1], t[2]));
  }

  lemma EncodeCut(s: seq<Byte>, n: nat)
    requires n <= |s| && (n == 3 || (n < 3 && n == |s|))
    ensures Encode(s) == Encode(s[..n]) + Encode(s[n..])
  {
    if n == 3 {
      EncodeTriple(s[..3]);
    } else {
      assert s[..n] == s && s[n..] == [];
    }
  }

  // ----- decoding what was encoded, and encoding what was decoded -----

  lemma TripleOfWord(a: Byte, b: Byte, c: Byte)
    ensures Triple(Word(a, b, c)) == [a, b, c]
  {
    assert Word(a, b, c) / 256 == a as int * 256 + b as int;
  }

  lemma WordOfTriple(w: nat)
    requires w < 0x100_0000
    ensures var t := Triple(w); Word(t[0], t[1], t[2]) == w
  {
    assert w / 65536 == w / 256 / 256;
  }

  // Symbols and the digits they stand for.
  lemma QuadValues(w: nat)
    requires w < 0x100_0000
    ensures var q := Quad(w);
            Symbols(q, 4) && WordOf(SymbolValue(q[0]), SymbolValue(q[1]), SymbolValue(q[2]), SymbolValue(q[3])) == w
  {
    assert w / 4096 == w / 64 / 64 && w / 262144 == w / 4096 / 64;
    SymbolsAreValues(w / 262144, '=');
    SymbolsAreValues(w / 4096 % 64, '=');
    SymbolsAreValues(w / 64 % 64, '=');
    SymbolsAreValues(w % 64, '=');
  }

  lemma QuadOfWord(p: char, q: char, r: char, s: char)
    requires IsSymbol(p) && IsSymbol(q) && IsSymbol(r) && IsSymbol(s)
    ensures Quad(WordOf(SymbolValue(p), SymbolValue(q), SymbolValue(r), SymbolValue(s))) == [p, q, r, s]
  {
    DigitsOfWord(SymbolValue(p), SymbolValue(q), SymbolValue(r), SymbolValue(s));
    SymbolsAreValues(0, p);
    SymbolsAreValues(0, q);
    SymbolsAreValues(0, r);
    SymbolsAreValues(0, s);
  }

  lemma DecodeGroup(a: Byte, b: Byte, c: Byte, rest: string)
    requires Grammar(rest)
    ensures var e := Quad(Word(a, b, c)) + rest; Grammar(e) && Decode(e) == [a, b, c] + Decode(rest)
  {
    var q := Quad(Word(a, b, c));
    QuadValues(Word(a, b, c));
    TripleOfWord(a, b, c);
    assert (q + rest)[4..] == rest && q[3] != '=';
  }

  lemma EncodeOne(a: Byte)
    ensures Encode([a]) == [Symbol(a as int / 4), Symbol(a as int % 4 * 16), '=', '=']
  {
    QuadOfBits(a, 0, 0);
  }

  lemma EncodeTwo(a: Byte, b: Byte)
    ensures Encode([a, b]) ==
            [Symbol(a as int / 4), Symbol(a as int % 4 * 16 + b as int / 16), Symbol(b as int % 16 * 4), '=']
  {
    QuadOfBits(a, b, 0);
  }

  lemma DecodeOne(a: Byte)
    ensures Grammar(Encode([a])) && Decode(Encode([a])) == [a]
  {
    Regrouped(a, 0, 0);
    EncodeOne(a);
    SymbolsAreValues(a as int / 4, '=');
    SymbolsAreValues(a as int % 4 * 16, '=');
    TripleOfWord(a, 0, 0);
  }

  lemma DecodeTwo(a: Byte, b: Byte)
    ensures Grammar(Encode([a, b])) && Decode(Encode([a, b])) == [a, b]
  {
    Regrouped(a, b, 0);
    EncodeTwo(a, b);
    SymbolsAreValues(a as int / 4, '=');
    SymbolsAreValues(a as int % 4 * 16 + b as int / 16, '=');
    SymbolsAreValues(b as int % 16 * 4, '=');
    TripleOfWord(a, b, 0);
  }

  lemma {:induction false} EncodeLength(s: seq<Byte>)
    ensures |Encode(s)| == (|s| + 2) / 3 * 4
  {
    if |s| == 1 {
      EncodeOne(s[0]);
      assert s == [s[0]];
    } else if |s| == 2 {
      EncodeTwo(s[0], s[1]);
      assert s == [s[0], s[1]];
    } else if |s| >= 3 {
      EncodeLength(s[3..]);
      assert (|s| + 2) / 3 == (|s| - 3 + 2) / 3 + 1;
    }
  }

  lemma FirstThree<T>(s: seq<T>)
    requires |s| >= 3
    ensures s == [s[0], s[1], s[2]] + s[3..]
  {
  }

  // Every byte sequence comes back.
  lemma {:induction false} DecodeEncode(s: seq<Byte>)
    ensures Grammar(Encode(s)) && Decode(Encode(s)) == s
  {
    if |s| == 1 {
      DecodeOne(s[0]);
      assert s == [s[0]];
    } else if |s| == 2 {
      DecodeTwo(s[0], s[1]);
      assert s == [s[0], s[1]];
    } else if |s| >= 3 {
      DecodeEncode(s[3..]);
      DecodeGroup(s[0], s[1], s[2], Encode(s[3..]));
      FirstThree(s);
    }
  }

  // The bits that decoding drops are zero.
  predicate TrailingBitsZero(e: string)
    requires Grammar(e)
  {
    e == "" ||
    if e[3] != '=' then TrailingBitsZero(e[4..])
    else if e[2] != '=' then SymbolValue(e[2]) % 4 == 0
    else SymbolValue(e[1]) % 16 == 0
  }

  lemma Bytes256(v: int, w: int, x: int)
    requires 0 <= v && 0 <= w < 64 && 0 <= x < 64
    ensures var u := ((v * 64 + w) * 64 + x) * 64;
            u / 65536 == v * 4 + w / 16 && u / 256 % 256 == w % 16 * 16 + x / 4
  {
    var u := ((v * 64 + w) * 64 + x) * 64;
    assert u / 256 == (v * 64 + w) * 16 + x / 4;
    assert u / 65536 == u / 256 / 256;
    assert (v * 64 + w) * 16 == (v * 4 + w / 16) * 256 + w % 16 * 16;
  }

  lemma DecodeShort(v: Sextet, w: Sextet, x: Sextet)
    ensures var (t, a, b, c) := (Triple(WordOf(v, w, x, 0)), v as int, w as int, x as int);
            t[0] as int == a * 4 + b / 16 && t[1] as int == b % 16 * 16 + c / 4
  {
    Bytes256(v, w, x);
  }

  // The digits to base 64 that two bytes were put together from.
  lemma Split(a: int, b: int, v: int, w: int, x: int)
    requires 0 <= v && 0 <= w < 64 && 0 <= x < 64
    requires a == v * 4 + w / 16 && b == w % 16 * 16 + x / 4
    ensures a / 4 == v && a % 4 * 16 == w - w % 16
    ensures a % 4 * 16 + b / 16 == w && b % 16 * 4 == x - x % 4
  {
    assert a % 4 == w / 16 && b / 16 == w % 16 && b % 16 == x / 4;
  }

  lemma OneAgain(a: Byte, p: char, q: char)
    requires IsSymbol(p) && IsSymbol(q)
    requires a as int == SymbolValue(p) * 4 + SymbolValue(q) / 16
    ensures Encode([a]) == [p, q, '=', '='] <==> SymbolValue(q) % 16 == 0
  {
    EncodeOne(a);
    var (v, w) := (SymbolValue(p), SymbolValue(q));
    Split(a as int, w % 16 * 16, v, w, 0);
    SymbolsAreValues(v, p);
    SymbolsAreValues(w - w % 16, q);
  }

  lemma TwoAgain(a: Byte, b: Byte, p: char, q: char, r: char)
    requires IsSymbol(p) && IsSymbol(q) && IsSymbol(r)
    requires a as int == SymbolValue(p) * 4 + SymbolValue(q) / 16
    requires b as int == SymbolValue(q) % 16 * 16 + SymbolValue(r) / 4
    ensures Encode([a, b]) == [p, q, r, '='] <==> SymbolValue(r) % 4 == 0
  {
    EncodeTwo(a, b);
    var (v, w, x) := (SymbolValue(p), SymbolValue(q), SymbolValue(r));
    Split(a as int, b as int, v, w, x);
    SymbolsAreValues(v, p);
    SymbolsAreValues(w, q);
    SymbolsAreValues(x - x % 4, r);
  }

  lemma DecodedOne(p: char, q: char) returns (a: Byte)
    requires IsSymbol(p) && IsSymbol(q)
    ensures var e := [p, q, '=', '=']; Grammar(e) && Decode(e) == [a] && e[3] == e[2] == '='
    ensures a as int == SymbolValue(p) * 4 + SymbolValue(q) / 16
  {
    DecodeShort(SymbolValue(p), SymbolValue(q), 0);
    a := Decode([p, q, '=', '='])[0];
  }

  lemma BothElements<T>(s: seq<T>)
    requires |s| == 2
    ensures s == [s[0], s[1]]
  {
  }

  lemma DecodedTwo(p: char, q: char, r: char) returns (a: Byte, b: Byte)
    requires IsSymbol(p) && IsSymbol(q) && IsSymbol(r)
    ensures var e := [p, q, r, '=']; Grammar(e) && Decode(e) == [a, b]
    ensures a as int == SymbolValue(p) * 4 + SymbolValue(q) / 16
    ensures b as int == SymbolValue(q) % 16 * 16 + SymbolValue(r) / 4
  {
    DecodeShort(SymbolValue(p), SymbolValue(q), SymbolValue(r));
    var d := Decode([p, q, r, '=']);
    a, b := d[0], d[1];
    BothElements(d);
  }

  lemma EncodeGroup(e: string)
    requires Grammar(e) && e != "" && e[3] != '='
    ensures |Decode(e)| == 3 + |Decode(e[4..])|
    ensures Encode(Decode(e)) == e[..4] + Encode(Decode(e[4..]))
  {
    var w := WordOf(SymbolValue(e[0]), SymbolValue(e[1]), SymbolValue(e[2]), SymbolValue(e[3]));
    WordOfTriple(w);
    QuadOfWord(e[0], e[1], e[2], e[3]);
    assert Decode(e)[3..] == Decode(e[4..]);
    assert e[..4] == [e[0], e[1], e[2], e[3]];
  }

  lemma DecodeOneGroup(e: string)
    requires Grammar(e) && e != ""
    ensures e[3] != '=' ==> |Decode(e)| == 3 + |Decode(e[4..])|
    ensures e[3] == '=' ==> |e| == 4 && 1 <= |Decode(e)| <= 2
  {
  }

  lemma {:induction false} DecodeLength(e: string)
    requires Grammar(e)
    ensures |e| == (|Decode(e)| + 2) / 3 * 4
  {
    if e == "" {
    } else {
      DecodeOneGroup(e);
      if e[3] != '=' {
        DecodeLength(e[4..]);
        assert (|Decode(e)| + 2) / 3 == (|Decode(e[4..])| + 2) / 3 + 1;
      }
    }
  }

  // Encoding what was decoded gives the same text exactly if the bits dropped
  // were zero.
  lemma {:induction false} EncodeDecode(e: string)
    requires Grammar(e)
    ensures Encode(Decode(e)) == e <==> TrailingBitsZero(e)
  {
    if e == "" {
    } else if e[3] != '=' {
      EncodeDecode(e[4..]);
      EncodeGroup(e);
      assert e == e[..4] + e[4..];
    } else if e[2] != '=' {
      var a, b := DecodedTwo(e[0], e[1], e[2]);
      TwoAgain(a, b, e[0], e[1], e[2]);
      assert e == [e[0], e[1], e[2], '='];
    } else {
      var a := DecodedOne(e[0], e[1]);
      OneAgain(a, e[0], e[1]);
      assert e == [e[0], e[1], '=', '='];
    }
  }

  // ----- what the standard says -----

  // Table 1 of RFC 4648, by the corners of its five rows.
  lemma Alphabet(v: Sextet)
    ensures Symbol(0) == 'A' && Symbol(25) == 'Z' && Symbol(26) == 'a' && Symbol(51) == 'z'
    ensures Symbol(52) == '0' && Symbol(61) == '9' && Symbol(62) == '+' && Symbol(63) == '/'
    ensures v !in {25, 51, 61, 62, 63} ==> Symbol(v + 1) as int == Symbol(v) as int + 1
  {
  }

  lemma EncodeThree(a: Byte, b: Byte, c: Byte)
    ensures var (x, y, z) := (a as int, b as int, c as int);
            Encode([a, b, c]) ==
            [Symbol(x / 4), Symbol(x % 4 * 16 + y / 16), Symbol(y % 16 * 4 + z / 64), Symbol(z % 64)]
  {
    EncodeTriple([a, b, c]);
    QuadOfBits(a, b, c);
  }

  lemma EncodeBehind(t: seq<Byte>, s: seq<Byte>)
    requires |t| == 3
    ensures Encode(t + s) == Encode(t) + Encode(s)
  {
    AppendCut(t, s);
    EncodeCut(t + s, 3);
  }

  const FOO: seq<Byte> := [0x66, 0x6F, 0x6F]

  // The test vectors of section 10 of RFC 4648.
  lemma ShortTestVectors()
    ensures Encode([]) == "" && Encode([0x66]) == "Zg==" && Encode([0x66, 0x6F]) == "Zm8=" && Encode(FOO) == "Zm9v"
  {
    EncodeOne(0x66);
    EncodeTwo(0x66, 0x6F);
    EncodeThree(0x66, 0x6F, 0x6F);
  }

  lemma LongTestVectors()
    ensures Encode(FOO + [0x62]) == "Zm9v" + "Yg==" && Encode(FOO + [0x62, 0x61]) == "Zm9v" + "YmE="
    ensures Encode(FOO + [0x62, 0x61, 0x72]) == "Zm9v" + "YmFy"
  {
    ShortTestVectors();
    TailsOfTestVectors();
    EncodeBehind(FOO, [0x62]);
    EncodeBehind(FOO, [0x62, 0x61]);
    EncodeBehind(FOO, [0x62, 0x61, 0x72]);
  }

  lemma TailsOfTestVectors()
    ensures Encode([0x62]) == "Yg==" && Encode([0x62, 0x61]) == "YmE=" && Encode([0x62, 0x61, 0x72]) == "YmFy"
  {
    EncodeOne(0x62);
    EncodeTwo(0x62, 0x61);
    EncodeThree(0x62, 0x61, 0x72);
  }

  // The last `n` characters are `=`, all others symbols.
  ghost predicate Padding(e: string, n: nat) {
    && n <= |e|
    && (forall i :: 0 <= i < |e| - n ==> IsSymbol(e[i]))
    && (forall i :: |e| - n <= i < |e| ==> e[i] == '=')
  }

  // A multiple of four characters, the last one or two of which may be padding.
  lemma {:induction false} GrammarMeaning(e: string)
    ensures Grammar(e) <==> |e| % 4 == 0 && (Padding(e, 0) || Padding(e, 1) || Padding(e, 2))
  {
    if e == "" {
    } else if |e| >= 8 {
      GrammarMeaning(e[4..]);
      assert forall i :: 4 <= i < |e| ==> e[i] == e[4..][i - 4];
      PaddingBehind(e, 0);
      PaddingBehind(e, 1);
      PaddingBehind(e, 2);
    } else if |e| == 4 {
      assert e[4..] == "";
    }
  }

  lemma PaddingBehind(e: string, n: nat)
    requires |e| >= 8 && n <= 2
    ensures Padding(e, n) <==>
            IsSymbol(e[0]) && IsSymbol(e[1]) && IsSymbol(e[2]) && IsSymbol(e[3]) && Padding(e[4..], n)
  {
    assert forall i :: 4 <= i < |e| ==> e[i] == e[4..][i - 4];
    if Padding(e, n) {
      assert forall i :: 0 <= i < |e| - 4 ==> e[4..][i] == e[i + 4];
    }
  }
}
