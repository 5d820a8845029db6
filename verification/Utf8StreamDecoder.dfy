// The streaming decoder: bytes arrive in packets, an unfinished character at
// the end of a packet waits for the next one, everything else is emitted.
module StreamDecoder {
  import opened Options
  import opened Sequences
  import opened Utf8

  // The text that the bytes of `s` from `i` on give at once, and the position
  // of the bytes they keep back for the next packet.
  function EmittedFrom(s: seq<Byte>, i: nat): seq<Scalar>
    requires i <= |s|
    decreases |s| - i
  {
    if i == |s| || Scan(s, i, |s|).Truncated? then [] else
      var head := Scan(s, i, |s|);
      [Shown(head)] + EmittedFrom(s, i + head.length)
  }

  function KeptAt(s: seq<Byte>, i: nat): (k: nat)
    requires i <= |s|
    ensures i <= k <= |s|
    decreases |s| - i
  {
    if i == |s| || Scan(s, i, |s|).Truncated? then i else KeptAt(s, i + Scan(s, i, |s|).length)
  }

  function Emitted(s: seq<Byte>): seq<Scalar> {
    EmittedFrom(s, 0)
  }

  function Kept(s: seq<Byte>): seq<Byte> {
    s[KeptAt(s, 0)..]
  }

  // Bytes that wait: not yet a character, at most three, and some completion
  // would make them one.
  ghost predicate Waiting(s: seq<Byte>) {
    s == [] || (Initial(s) && |s| <= 3 && forall n :: 0 < n <= |s| ==> !WellFormedCharacter(s[..n]))
  }

  class Utf8StreamDecoder {
    var pending: seq<Byte>

    constructor ()
      ensures pending == []
    {
      pending := [];
    }

    method Push(data: seq<Byte>) returns (output: seq<Scalar>)
      modifies this
      ensures output == Emitted(old(pending) + data)
      ensures pending == Kept(old(pending) + data)
      ensures Waiting(pending)
    {
      pending := pending + data;
      var offset;
      output, offset := Decode(pending);
      if offset > 0 {
        pending := pending[offset..];
      }
    }

    method Finish() returns (output: seq<Scalar>)
      modifies this
      ensures output == Lossy(old(pending))
      ensures old(pending) == [] ==> output == []
      ensures old(pending) != [] && Waiting(old(pending)) ==> output == [0xFFFD]
      ensures pending == []
    {
      if pending == [] {
        return [];
      }
      if Waiting(pending) {
        UnfinishedIsReplaced(pending);
      }
      output := Lossy(pending);
      pending := [];
    }
  }

  // The valid text in front of an error goes out as it is.
  method PassPrefix(output: seq<Scalar>, buffer: seq<Byte>, offset: nat, validLength: nat)
    returns (output': seq<Scalar>, offset': nat)
    requires offset + validLength <= |buffer| && FromUtf8(buffer, offset, offset + validLength).Valid?
    ensures offset' == offset + validLength
    ensures Decoding(output', buffer, offset') == Decoding(output, buffer, offset)
  {
    output', offset' := output, offset;
    if validLength > 0 {
      PassText(output, buffer, offset, offset + validLength);
      if FromUtf8(buffer, offset, offset + validLength).Valid? {
        output' := output' + Text(buffer, offset, offset + validLength);
      }
      offset' := offset' + validLength;
    }
  }

  // The loop of `Push` over the buffered bytes: the text to emit and the
  // position behind the bytes it used up.
  method Decode(buffer: seq<Byte>) returns (output: seq<Scalar>, offset: nat)
    ensures offset <= |buffer|
    ensures output == Emitted(buffer)
    ensures buffer[offset..] == Kept(buffer) && Waiting(buffer[offset..])
    ensures offset == 0 ==> buffer[offset..] == buffer
  {
    output := [];
    offset := 0;
    ghost var goal := Decoding([], buffer, 0);
    var waiting := false;
    while offset < |buffer| && !waiting
      invariant offset <= |buffer|
      invariant Decoding(output, buffer, offset) == goal
      invariant waiting ==> goal == (output, offset)
      decreases |buffer| - offset, !waiting
    {
      output, offset, waiting := DecodeSome(output, buffer, offset);
    }
    DecodingEnds(buffer, output, offset);
  }

  // One look at what is left: all of it is valid, or the valid beginning is
  // passed and what follows is replaced or waits.
  method DecodeSome(output: seq<Scalar>, buffer: seq<Byte>, offset: nat)
    returns (output': seq<Scalar>, offset': nat, waiting: bool)
    requires offset < |buffer|
    ensures offset <= offset' <= |buffer| && (waiting || offset < offset')
    ensures Decoding(output', buffer, offset') == Decoding(output, buffer, offset)
    ensures waiting ==> Decoding(output', buffer, offset') == (output', offset')
  {
    match FromUtf8(buffer, offset, |buffer|)
    case Valid =>
      PassText(output, buffer, offset, |buffer|);
      return output + Text(buffer, offset, |buffer|), |buffer|, false;
    case Invalid(validLength, errorLength) =>
      PrefixValid(buffer, offset, |buffer|);
      output', offset' := PassPrefix(output, buffer, offset, validLength);
      waiting := errorLength.None?;
      if !waiting {
        output' := output' + [REPLACEMENT];
        offset' := offset' + errorLength.value;
      }
  }

  // The loop's own view: `output` already emitted, looking at position `i`.
  function Decoding(output: seq<Scalar>, s: seq<Byte>, i: nat): (seq<Scalar>, nat)
    requires i <= |s|
    decreases |s| - i
  {
    if i == |s| || Scan(s, i, |s|).Truncated? then (output, i) else
      var head := Scan(s, i, |s|);
      Decoding(output + [Shown(head)], s, i + head.length)
  }

  lemma {:induction false} DecodingMeaning(output: seq<Scalar>, s: seq<Byte>, i: nat)
    requires i <= |s|
    ensures Decoding(output, s, i) == (output + EmittedFrom(s, i), KeptAt(s, i))
    decreases |s| - i
  {
    if i < |s| && !Scan(s, i, |s|).Truncated? {
      var head := Scan(s, i, |s|);
      var first, tail := [Shown(head)], EmittedFrom(s, i + head.length);
      DecodingMeaning(output + first, s, i + head.length);
      Associative(output, first, tail);
    } else {
      assert output + EmittedFrom(s, i) == output;
    }
  }

  lemma DecodingFromStart(s: seq<Byte>)
    ensures Decoding([], s, 0) == (Emitted(s), KeptAt(s, 0))
  {
    DecodingMeaning([], s, 0);
    assert [] + Emitted(s) == Emitted(s);
  }

  lemma DecodingEnds(s: seq<Byte>, output: seq<Scalar>, i: nat)
    requires i <= |s|
    requires Decoding([], s, 0) == (output, i)
    ensures output == Emitted(s) && s[i..] == Kept(s) && Waiting(Kept(s))
    ensures i == 0 ==> s[i..] == s
  {
    DecodingFromStart(s);
    assert i == KeptAt(s, 0) && s[i..] == Kept(s);
    KeptWaits(s);
  }

  // Valid text passes through, whatever follows it.
  lemma {:induction false} PassText(output: seq<Scalar>, s: seq<Byte>, i: nat, end: nat)
    requires i <= end <= |s| && FromUtf8(s, i, end).Valid?
    ensures Decoding(output, s, i) == Decoding(output + Text(s, i, end), s, end)
    decreases end - i
  {
    if i == end {
      assert output + Text(s, i, end) == output;
    } else {
      var Character(n, value) := Scan(s, i, end);
      ScanStable(s, i, end, s, i, |s|);
      PassText(output + [value], s, i + n, end);
      Associative(output, [value], Text(s, i + n, end));
    }
  }

  lemma {:induction false} KeptStays(s: seq<Byte>, i: nat)
    requires i <= |s|
    ensures KeptAt(s, i) < |s| ==> Scan(s, KeptAt(s, i), |s|).Truncated?
    decreases |s| - i
  {
    if i == |s| || Scan(s, i, |s|).Truncated? {
    } else {
      KeptStays(s, i + Scan(s, i, |s|).length);
    }
  }

  lemma KeptWaits(s: seq<Byte>)
    ensures Waiting(Kept(s))
    ensures Emitted(Kept(s)) == [] && Kept(Kept(s)) == Kept(s)
  {
    KeptStays(s, 0);
    var k, kept := KeptAt(s, 0), Kept(s);
    if kept != [] {
      ScanStable(s, k, |s|, kept, 0, |kept|);
      ScanMeaning(kept);
      InitialFits(kept);
      RowsFit(kept);
      assert kept[..|kept|] == kept;
    }
  }

  // ----- the decoder may be stopped anywhere -----

  lemma {:induction false} More(s: seq<Byte>, more: seq<Byte>, i: nat)
    requires i <= |s|
    ensures EmittedFrom(s + more, i) == EmittedFrom(s, i) + EmittedFrom(s + more, KeptAt(s, i))
    ensures KeptAt(s + more, i) == KeptAt(s + more, KeptAt(s, i))
    decreases |s| - i
  {
    if i == |s| || Scan(s, i, |s|).Truncated? {
    } else {
      var t := s + more;
      ScanStable(s, i, |s|, t, i, |t|);
      var next := i + Scan(s, i, |s|).length;
      More(s, more, next);
      var first, tail := [Shown(Scan(s, i, |s|))], EmittedFrom(t, KeptAt(s, i));
      Associative(first, EmittedFrom(s, next), tail);
    }
  }

  lemma {:induction false} SameStream(s: seq<Byte>, i: nat, t: seq<Byte>, j: nat)
    requires i <= |s| && j <= |t| && |s| - i == |t| - j
    requires SameBytes(s, i, t, j, |s| - i)
    ensures EmittedFrom(s, i) == EmittedFrom(t, j)
    ensures KeptAt(s, i) - i == KeptAt(t, j) - j
    decreases |s| - i
  {
    if i == |s| {
    } else {
      ScanStable(s, i, |s|, t, j, |t|);
      if !Scan(s, i, |s|).Truncated? {
        var n := Scan(s, i, |s|).length;
        SameStream(s, i + n, t, j + n);
      }
    }
  }

  lemma Drained(s: seq<Byte>, k: nat)
    requires k <= |s|
    ensures EmittedFrom(s, k) == Emitted(s[k..])
    ensures s[KeptAt(s, k)..] == Kept(s[k..])
  {
    SameStream(s, k, s[k..], 0);
  }

  lemma DropAppend<T>(s: seq<T>, more: seq<T>, k: nat)
    requires k <= |s|
    ensures (s + more)[k..] == s[k..] + more
  {
  }

  // What was kept, followed by the bytes still to come, continues exactly
  // where an undivided input would be.
  lemma Resume(s: seq<Byte>, more: seq<Byte>)
    ensures Emitted(s + more) == Emitted(s) + Emitted(Kept(s) + more)
    ensures Kept(s + more) == Kept(Kept(s) + more)
  {
    More(s, more, 0);
    Drained(s + more, KeptAt(s, 0));
    DropAppend(s, more, KeptAt(s, 0));
  }

  // A one-shot lossy decode is what is emitted plus a lossy decode of the rest.
  lemma {:induction false} LossySplitFrom(s: seq<Byte>, i: nat)
    requires i <= |s|
    ensures LossyFrom(s, i) == EmittedFrom(s, i) + LossyFrom(s, KeptAt(s, i))
    decreases |s| - i
  {
    if i == |s| || Scan(s, i, |s|).Truncated? {
    } else {
      var next := i + Scan(s, i, |s|).length;
      LossySplitFrom(s, next);
      var first, tail := [Shown(Scan(s, i, |s|))], LossyFrom(s, KeptAt(s, i));
      Associative(first, EmittedFrom(s, next), tail);
    }
  }

  lemma LossySplit(s: seq<Byte>)
    ensures Lossy(s) == Emitted(s) + Lossy(Kept(s))
  {
    LossySplitFrom(s, 0);
    KeptStays(s, 0);
    KeptWaits(s);
    LossySplitFrom(Kept(s), 0);
    var kept := Kept(s);
    if kept != [] {
      KeptStays(kept, 0);
      assert KeptAt(kept, 0) == 0;
    }
  }

  // ----- whole streams -----

  // Text emitted so far, and the bytes held back for the next packet.
  datatype Stream = Stream(text: seq<Scalar>, pending: seq<Byte>)

  // The text and the held bytes after the chunks, one push each.
  function PushAll(chunks: seq<seq<Byte>>): Stream {
    if chunks == [] then Stream([], [])
    else
      var before := PushAll(chunks[..|chunks| - 1]);
      var buffer := before.pending + chunks[|chunks| - 1];
      Stream(before.text + Emitted(buffer), Kept(buffer))
  }

  lemma {:induction false} PushAllIsOnePush(chunks: seq<seq<Byte>>)
    ensures PushAll(chunks) == Stream(Emitted(Flatten(chunks)), Kept(Flatten(chunks)))
  {
    if chunks == [] {
    } else {
      var init, last := chunks[..|chunks| - 1], chunks[|chunks| - 1];
      PushAllIsOnePush(init);
      assert chunks == init + [last];
      FlattenSnoc(init, last);
      Resume(Flatten(init), last);
    }
  }

  // Chunk independence: however the bytes are cut, empty chunks included, the
  // pushes and the final flush give the one-shot lossy decode of the whole.
  lemma ChunkIndependence(chunks: seq<seq<Byte>>)
    ensures PushAll(chunks).text + Lossy(PushAll(chunks).pending) == Lossy(Flatten(chunks))
    ensures Waiting(PushAll(chunks).pending)
  {
    PushAllIsOnePush(chunks);
    LossySplit(Flatten(chunks));
    KeptWaits(Flatten(chunks));
  }

  // The same for the object itself.
  method DecodeChunks(chunks: seq<seq<Byte>>) returns (text: seq<Scalar>)
    ensures text == Lossy(Flatten(chunks))
  {
    var decoder := new Utf8StreamDecoder();
    text := [];
    var i := 0;
    while i < |chunks|
      invariant i <= |chunks|
      invariant fresh(decoder)
      invariant Stream(text, decoder.pending) == PushAll(chunks[..i])
    {
      var output := decoder.Push(chunks[i]);
      text := text + output;
      assert chunks[..i + 1][..i] == chunks[..i];
      i := i + 1;
    }
    assert chunks[..i] == chunks;
    ChunkIndependence(chunks);
    var output := decoder.Finish();
    text := text + output;
  }

  // ----- fidelity -----

  lemma {:induction false} ValidIsLossless(s: seq<Byte>, i: nat)
    requires i <= |s| && FromUtf8(s, i, |s|).Valid?
    ensures LossyFrom(s, i) == EmittedFrom(s, i) == Text(s, i, |s|) && KeptAt(s, i) == |s|
    decreases |s| - i
  {
    if i == |s| {
    } else {
      ValidIsLossless(s, i + Scan(s, i, |s|).length);
    }
  }

  // Re-encoding what the stream decoded gives the received bytes back exactly
  // when they were well-formed.
  lemma Fidelity(chunks: seq<seq<Byte>>)
    ensures Encode(PushAll(chunks).text + Lossy(PushAll(chunks).pending)) == Flatten(chunks)
       <==> WellFormed(Flatten(chunks))
  {
    var s := Flatten(chunks);
    ChunkIndependence(chunks);
    FromUtf8Meaning(s);
    if WellFormed(s) {
      ValidIsLossless(s, 0);
    }
  }

  // Any text sent survives any cutting, with nothing left over.
  lemma TextSurvivesCutting(text: seq<Scalar>, chunks: seq<seq<Byte>>)
    requires Flatten(chunks) == Encode(text)
    ensures PushAll(chunks) == Stream(text, [])
  {
    PushAllIsOnePush(chunks);
    EncodeIsValid(text);
    ValidIsLossless(Encode(text), 0);
  }

  // A byte that is never part of a character does not come back.
  lemma LoneByteIsLost()
    ensures Encode(PushAll([[0xFF]]).text + Lossy(PushAll([[0xFF]]).pending)) != [0xFF]
  {
    var chunks: seq<seq<Byte>> := [[0xFF]];
    assert Flatten(chunks) == chunks[0] + Flatten([]);
    assert Flatten(chunks) == [0xFF];
    FromUtf8Meaning([0xFF]);
    Fidelity(chunks);
  }

  // ----- what a lossy decode gives, by the table alone -----

  // Nothing but an unfinished character: it could be continued to a character
  // and does not begin with one.
  ghost predicate Unfinished(m: seq<Byte>) {
    m != [] && Initial(m) && forall n :: 1 <= n <= |m| ==> !WellFormedCharacter(m[..n])
  }

  // An ill-formed subpart with `rest` behind it: no character stands at its front,
  // and it is either as long as it could be continued to one, or a single byte.
  ghost predicate MaximalSubpart(m: seq<Byte>, rest: seq<Byte>) {
    && m != []
    && (forall n :: 1 <= n <= |m| ==> !WellFormedCharacter(m[..n]))
    && (if Initial(m) then rest != [] && !Initial(m + [rest[0]]) else |m| == 1)
  }

  lemma UnfinishedIsReplaced(m: seq<Byte>)
    requires Unfinished(m)
    ensures Lossy(m) == [0xFFFD] && Emitted(m) == [] && Kept(m) == m
  {
    ScanMeaning(m);
  }

  lemma {:induction false} LossySame(s: seq<Byte>, i: nat, t: seq<Byte>, j: nat)
    requires i <= |s| && j <= |t| && |s| - i == |t| - j
    requires SameBytes(s, i, t, j, |s| - i)
    ensures LossyFrom(s, i) == LossyFrom(t, j)
    decreases |s| - i
  {
    if i == |s| {
    } else {
      var head := Scan(s, i, |s|);
      ScanStable(s, i, |s|, t, j, |t|);
      assert Scan(t, j, |t|) == head;
      if head.Truncated? {
        assert LossyFrom(s, i) == [REPLACEMENT] == LossyFrom(t, j);
      } else {
        LossySame(s, i + head.length, t, j + head.length);
        assert LossyFrom(s, i) == [Shown(head)] + LossyFrom(s, i + head.length);
        assert LossyFrom(t, j) == [Shown(head)] + LossyFrom(t, j + head.length);
      }
    }
  }

  // What cannot be continued to a character cannot be so with more behind it.
  lemma NeverInitial(s: seq<Byte>, k: nat)
    requires k <= |s| && !Initial(s[..k])
    ensures forall n :: k <= n <= |s| ==> !Initial(s[..n]) && !WellFormedCharacter(s[..n])
  {
    forall n, rest: seq<Byte> | k <= n <= |s| ensures !WellFormedCharacter(s[..n] + rest) {
      assert s[..n] + rest == s[..k] + (s[k..n] + rest);
    }
    forall n | k <= n <= |s| ensures !WellFormedCharacter(s[..n]) {
      assert s[..n] + [] == s[..n];
    }
  }

  lemma SubpartIsScanned(m: seq<Byte>, rest: seq<Byte>)
    requires MaximalSubpart(m, rest)
    ensures var s := m + rest; Scan(s, 0, |s|) == Illformed(|m|)
  {
    var s := m + rest;
    var k := if Initial(m) then |m| + 1 else 1;
    assert s[..k] == if Initial(m) then m + [rest[0]] else m;
    NeverInitial(s, k);
    assert forall n :: 1 <= n <= |m| ==> s[..n] == m[..n];
    assert s[..|s|] == s && s[..|m|] == m && m[..|m|] == m;
    ScanMeaning(s);
  }

  // A maximal subpart becomes one U+FFFD, and the decode goes on behind it.
  lemma SubpartIsReplaced(m: seq<Byte>, rest: seq<Byte>)
    requires MaximalSubpart(m, rest)
    ensures Lossy(m + rest) == [0xFFFD] + Lossy(rest)
  {
    SubpartIsScanned(m, rest);
    LossySame(m + rest, |m|, rest, 0);
  }

  // Text in front of any bytes is decoded to itself.
  lemma TextInFront(text: seq<Scalar>, more: seq<Byte>)
    ensures Emitted(Encode(text) + more) == text + Emitted(more) && Kept(Encode(text) + more) == Kept(more)
    ensures Lossy(Encode(text) + more) == text + Lossy(more)
  {
    var s := Encode(text);
    EncodeIsValid(text);
    ValidIsLossless(s, 0);
    assert Emitted(s) == text && Kept(s) == [] && [] + more == more;
    Resume(s, more);
    LossySplit(s + more);
    LossySplit(more);
    Associative(text, Emitted(more), Lossy(Kept(more)));
  }

  // The three ways in which a lossy decode goes on, which cover every input: it
  // ends after text, it ends in an unfinished character, or a maximal ill-formed
  // subpart comes and more behind it.
  lemma LossyMeaning(text: seq<Scalar>, m: seq<Byte>, rest: seq<Byte>)
    ensures Lossy(Encode(text)) == text
    ensures Unfinished(m) ==> Lossy(Encode(text) + m) == text + [0xFFFD]
    ensures MaximalSubpart(m, rest) ==> Lossy(Encode(text) + m + rest) == text + [0xFFFD] + Lossy(rest)
  {
    TextInFront(text, []);
    EmptyRight(Encode(text));
    EmptyRight(text);
    TextInFront(text, m);
    TextInFront(text, m + rest);
    Associative(Encode(text), m, rest);
    Associative(text, [0xFFFD], Lossy(rest));
    if Unfinished(m) {
      UnfinishedIsReplaced(m);
    }
    if MaximalSubpart(m, rest) {
      SubpartIsReplaced(m, rest);
    }
  }

  lemma HeadMeaning(s: seq<Byte>)
    requires s != []
    ensures var head := Scan(s, 0, |s|);
            && (head.Truncated? ==> Unfinished(s))
            && (!head.Truncated? ==> 1 <= head.length <= |s|)
            && (head.Illformed? ==> MaximalSubpart(s[..head.length], s[head.length..]))
            && (head.Character? ==> EncodeScalar(head.value) == s[..head.length])
  {
    var head := Scan(s, 0, |s|);
    ScanMeaning(s);
    if head.Illformed? {
      HeadIsSubpart(s, head.length);
    } else if head.Character? {
      EncodeValue(s[..head.length]);
    }
  }

  // Every input is of one of the three kinds.
  lemma {:induction false} EveryInput(s: seq<Byte>) returns (text: seq<Scalar>, m: seq<Byte>, rest: seq<Byte>)
    ensures s == Encode(text) + m + rest
    ensures (m == [] && rest == []) || (Unfinished(m) && rest == []) || MaximalSubpart(m, rest)
  {
    if s == [] {
      text, m, rest := [], [], [];
    } else {
      HeadMeaning(s);
      match Scan(s, 0, |s|)
      case Truncated =>
        text, m, rest := [], s, [];
        Behind(s, 0, [], s, []);
      case Illformed(n) =>
        text, m, rest := [], s[..n], s[n..];
        Behind(s, 0, [], m, rest);
      case Character(n, value) =>
        text, m, rest := EveryInput(s[n..]);
        EncodePrepend(value, text);
        Behind(s, n, Encode(text), m, rest);
        text := [value] + text;
    }
  }

  // The first `n` elements and three parts behind them.
  lemma Behind<T>(s: seq<T>, n: nat, t: seq<T>, m: seq<T>, rest: seq<T>)
    requires n <= |s| && s[n..] == t + m + rest
    ensures s == (s[..n] + t) + m + rest && s[..0] + t == t
  {
  }

  lemma HeadIsSubpart(s: seq<Byte>, n: nat)
    requires s != [] && Scan(s, 0, |s|) == Illformed(n)
    ensures MaximalSubpart(s[..n], s[n..])
  {
    var (m, rest) := (s[..n], s[n..]);
    ScanMeaning(s);
    ScanFits(s, 0, |s|);
    assert forall k :: 1 <= k <= n ==> m[..k] == s[..k];
    assert n < |s| ==> m + [rest[0]] == s[..n + 1];
    InitialFits(m);
    FitsPrefix(s, n);
  }

  // The decoder object at the end of a stream that breaks off in a character:
  // the text before it, and one U+FFFD.
  lemma BrokenStream(text: seq<Scalar>, m: seq<Byte>, chunks: seq<seq<Byte>>)
    requires Unfinished(m) && Flatten(chunks) == Encode(text) + m
    ensures PushAll(chunks) == Stream(text, m)
  {
    PushAllIsOnePush(chunks);
    TextInFront(text, m);
    UnfinishedIsReplaced(m);
    EmptyRight(text);
  }
}
