// Clipboard writes that a remote program asks for with OSC 52.
module Osc52 {
  import opened Utf8
  import opened Options
  import opened Base64

  const MAX_CLIPBOARD_BYTES: nat := 1024 * 1024
  const MAX_CLIPBOARD_BASE64_LENGTH: nat := (MAX_CLIPBOARD_BYTES + 2) / 3 * 4
  const BYTE_ORDER_MARK: Scalar := 0xFEFF

  datatype Reason =
    | InvalidPayload
    | MissingSeparator
    | UnsupportedTarget
    | ReadNotSupported
    | EncodedTooLarge
    | InvalidBase64
    | DecodedTooLarge
    | InvalidUtf8

  datatype Verdict = Accepted(text: seq<Scalar>, byteLength: nat) | Rejected(reason: Reason)

  function Payload(target: string, encoded: string): string {
    target + ";" + encoded
  }

  // A text decoder drops a byte order mark at the very beginning.
  function WithoutMark(text: seq<Scalar>): seq<Scalar> {
    if text != [] && text[0] == BYTE_ORDER_MARK then text[1..] else text
  }

  // What becomes of the bytes of a write.
  ghost function BytesVerdict(bytes: seq<Byte>): Verdict {
    if |bytes| > MAX_CLIPBOARD_BYTES then Rejected(DecodedTooLarge)
    else if !WellFormed(bytes) then Rejected(InvalidUtf8)
    else Accepted(WithoutMark(Text(bytes, 0, |bytes|)), |bytes|)
  }

  // What becomes of a payload with this target and this encoded text.
  ghost function Judged(target: string, encoded: string): Verdict {
    if target != "" && target != "c" then Rejected(UnsupportedTarget)
    else if encoded == "?" then Rejected(ReadNotSupported)
    else if |encoded| > MAX_CLIPBOARD_BASE64_LENGTH then Rejected(EncodedTooLarge)
    else if !Grammar(encoded) then Rejected(InvalidBase64)
    else BytesVerdict(Decode(encoded))
  }

  method IndexOf(s: string, c: char) returns (i: int)
    ensures i == -1 <==> c !in s
    ensures i != -1 ==> 0 <= i < |s| && s[i] == c && c !in s[..i]
  {
    i := 0;
    while i < |s|
      invariant 0 <= i <= |s| && c !in s[..i]
    {
      if s[i] == c {
        return;
      }
      i := i + 1;
    }
    i := -1;
  }

  // A payload has one separator that counts, the first.
  lemma OneSeparator(target: string, encoded: string, i: nat)
    requires ';' !in target && i < |Payload(target, encoded)|
    requires Payload(target, encoded)[i] == ';' && ';' !in Payload(target, encoded)[..i]
    ensures Payload(target, encoded)[..i] == target && Payload(target, encoded)[i + 1..] == encoded
  {
    var p := Payload(target, encoded);
    assert forall j :: 0 <= j < |target| ==> p[j] == target[j];
    assert forall j :: 0 <= j < i ==> p[j] in p[..i];
    assert p[|target|] == ';';
  }

  method DecodeOsc52(payload: Option<string>) returns (r: Verdict)
    ensures payload.None? ==> r == Rejected(InvalidPayload)
    ensures payload.Some? && ';' !in payload.value ==> r == Rejected(MissingSeparator)
    ensures forall target, encoded :: payload == Some(Payload(target, encoded)) && ';' !in target ==>
              r == Judged(target, encoded)
  {
    if payload.None? {
      return Rejected(InvalidPayload);
    }
    var separator := IndexOf(payload.value, ';');
    if separator < 0 {
      return Rejected(MissingSeparator);
    }
    var target := payload.value[..separator];
    var encoded := payload.value[separator + 1..];
    forall t, e | payload == Some(Payload(t, e)) && ';' !in t ensures t == target && e == encoded {
      OneSeparator(t, e, separator);
    }
    r := Judge(target, encoded);
  }

  method Judge(target: string, encoded: string) returns (r: Verdict)
    ensures r == Judged(target, encoded)
  {
    if target != "" && target != "c" {
      return Rejected(UnsupportedTarget);
    }
    if encoded == "?" {
      return Rejected(ReadNotSupported);
    }
    if |encoded| > MAX_CLIPBOARD_BASE64_LENGTH {
      return Rejected(EncodedTooLarge);
    }
    if Grammar(encoded) {
      DecodeLength(encoded);
    }
    if |encoded| % 4 == 1 || !Grammar(encoded) {
      return Rejected(InvalidBase64);
    }
    var binary := Decode(encoded);
    if |binary| > MAX_CLIPBOARD_BYTES {
      return Rejected(DecodedTooLarge);
    }
    r := JudgeBytes(binary);
  }

  // The bytes are copied and decoded.
  method JudgeBytes(binary: seq<Byte>) returns (r: Verdict)
    requires |binary| <= MAX_CLIPBOARD_BYTES
    ensures r == BytesVerdict(binary)
  {
    var bytes := new Byte[|binary|];
    var i := 0;
    while i < |binary|
      invariant i <= |binary|
      invariant bytes[..i] == binary[..i]
    {
      bytes[i] := binary[i];
      i := i + 1;
    }
    assert bytes[..] == binary;
    FromUtf8Meaning(binary);
    if FromUtf8(bytes[..], 0, bytes.Length) != Valid {
      return Rejected(InvalidUtf8);
    }
    return Accepted(WithoutMark(Text(bytes[..], 0, bytes.Length)), bytes.Length);
  }

  // ----- what is accepted -----

  lemma Limits(n: nat)
    ensures (n + 2) / 3 * 4 <= MAX_CLIPBOARD_BASE64_LENGTH <==> n <= MAX_CLIPBOARD_BYTES + 2
  {
    assert MAX_CLIPBOARD_BASE64_LENGTH == 349526 * 4;
    assert (n + 2) / 3 <= 349526 <==> n <= 1048578;
  }

  lemma LengthsFit(encoded: string)
    requires Grammar(encoded)
    ensures encoded != "?"
    ensures |encoded| <= MAX_CLIPBOARD_BASE64_LENGTH <==> |Decode(encoded)| <= MAX_CLIPBOARD_BYTES + 2
  {
    DecodeLength(encoded);
    Limits(|Decode(encoded)|);
    assert |encoded| != 1;
  }

  // Text of that form is judged by its bytes, unless it is too long.
  lemma JudgedByBytes(encoded: string)
    requires Grammar(encoded)
    ensures Judged("c", encoded) == Judged("", encoded) ==
            if |Decode(encoded)| > MAX_CLIPBOARD_BYTES + 2 then Rejected(EncodedTooLarge)
            else BytesVerdict(Decode(encoded))
  {
    LengthsFit(encoded);
  }

  // Exactly the well-formed text of up to 1 MiB, in base64, for the default
  // clipboard: the check of the encoded length refuses nothing of it.
  lemma AcceptedExactly(target: string, encoded: string)
    ensures Judged(target, encoded).Accepted? <==>
            && (target == "" || target == "c") && Grammar(encoded)
            && |Decode(encoded)| <= MAX_CLIPBOARD_BYTES && WellFormed(Decode(encoded))
  {
    if Grammar(encoded) {
      JudgedByBytes(encoded);
    }
  }

  ghost predicate ForClipboard(target: string) {
    target == "" || target == "c"
  }

  // Each refusal, in the order of the checks.
  lemma RefusedExactly(target: string, encoded: string)
    ensures var (v, ours, fits) := (Judged(target, encoded), ForClipboard(target), |encoded| <= 1398104);
            && (v == Rejected(UnsupportedTarget) <==> !ours)
            && (v == Rejected(ReadNotSupported) <==> ours && encoded == "?")
            && (v == Rejected(EncodedTooLarge) <==> ours && !fits)
            && (v == Rejected(InvalidBase64) <==> ours && fits && encoded != "?" && !Grammar(encoded))
            && (v == Rejected(DecodedTooLarge) <==> ours && fits && Grammar(encoded) && |Decode(encoded)| > 1048576)
            && (v == Rejected(InvalidUtf8) <==>
                  ours && Grammar(encoded) && |Decode(encoded)| <= 1048576 && !WellFormed(Decode(encoded)))
  {
    assert MAX_CLIPBOARD_BASE64_LENGTH == 1398104;
    if Grammar(encoded) {
      LengthsFit(encoded);
    }
  }

  // What arrives is the text whose encoding was sent, without the byte order mark
  // it may begin with.
  lemma AcceptedText(target: string, encoded: string, sent: seq<Scalar>)
    requires Judged(target, encoded).Accepted? && Grammar(encoded) && Decode(encoded) == Utf8.Encode(sent)
    ensures Judged(target, encoded) ==
            Accepted(if sent != [] && sent[0] == 0xFEFF then sent[1..] else sent, |Utf8.Encode(sent)|)
  {
    EncodeIsValid(sent);
  }

  // What comes out of the encoder is refused for its length from three bytes
  // beyond the limit on; the two lengths before that only show when decoded.
  lemma EncodedVerdict(bytes: seq<Byte>)
    ensures |bytes| <= MAX_CLIPBOARD_BYTES ==> Judged("c", Base64.Encode(bytes)) == BytesVerdict(bytes)
    ensures MAX_CLIPBOARD_BYTES < |bytes| <= MAX_CLIPBOARD_BYTES + 2 ==>
              Judged("c", Base64.Encode(bytes)) == Rejected(DecodedTooLarge)
    ensures MAX_CLIPBOARD_BYTES + 2 < |bytes| ==> Judged("c", Base64.Encode(bytes)) == Rejected(EncodedTooLarge)
  {
    DecodeEncode(bytes);
    JudgedByBytes(Base64.Encode(bytes));
  }

  // A text arrives as it was sent exactly if it fits and does not begin with a
  // byte order mark.
  lemma TextArrives(text: seq<Scalar>)
    ensures var bytes := Utf8.Encode(text);
            Judged("c", Base64.Encode(bytes)) == Accepted(text, |bytes|) <==>
            |bytes| <= MAX_CLIPBOARD_BYTES && (text == [] || text[0] != BYTE_ORDER_MARK)
  {
    var bytes := Utf8.Encode(text);
    EncodedVerdict(bytes);
    EncodeIsValid(text);
    if text != [] && text[0] == BYTE_ORDER_MARK {
      assert |WithoutMark(text)| < |text|;
    }
  }

  // A text that is only a byte order mark arrives empty.
  lemma MarkIsDropped()
    ensures Judged("c", Base64.Encode(Utf8.Encode([BYTE_ORDER_MARK]))) == Accepted([], 3)
  {
    var text := [BYTE_ORDER_MARK];
    var bytes := Utf8.Encode(text);
    assert bytes == EncodeScalar(BYTE_ORDER_MARK) + Utf8.Encode([]);
    assert |bytes| == 3;
    EncodedVerdict(bytes);
    EncodeIsValid(text);
    assert WithoutMark(text) == [];
  }
}
