// The fixture compares what is pasted, packet by packet, with the payload it
// put on the clipboard.
module PasteMatcher {
  import opened Utf8
  import opened Options
  import opened Sequences

  datatype PasteTransfer = PasteTransfer(payload: seq<Byte>, received: nat) {
    // Something is still expected.
    predicate Valid() { received < |payload| }
  }

  datatype Reply = PasteOk(bytes: nat) | PasteFail

  class Fixture {
    var pendingPaste: Option<PasteTransfer>

    predicate Valid()
      reads this
    {
      pendingPaste.Some? ==> pendingPaste.value.Valid()
    }

    constructor (payload: seq<Byte>)
      requires payload != []
      ensures Valid() && pendingPaste == Some(PasteTransfer(payload, 0))
    {
      pendingPaste := Some(PasteTransfer(payload, 0));
    }

    // One packet while a paste is pending. A reply ends the paste.
    method Data(data: seq<Byte>) returns (reply: Option<Reply>)
      requires Valid() && pendingPaste.Some?
      modifies this
      ensures Valid()
      ensures var PasteTransfer(payload, received) := old(pendingPaste).value;
              var all := payload[..received] + data;
              && (reply == Some(PasteOk(|payload|)) <==> all == payload)
              && (reply == Some(PasteFail) <==> !(all <= payload))
              && (reply == None <==> all < payload)
              && pendingPaste == if reply == None then Some(PasteTransfer(payload, |all|)) else None
    {
      var transfer := pendingPaste.value;
      var remaining := |transfer.payload| - transfer.received;
      var accepted := if remaining < |data| then remaining else |data|;
      var expected := transfer.payload[transfer.received..transfer.received + accepted];
      ghost var all := transfer.payload[..transfer.received] + data;
      if |data| > remaining || data[..accepted] != expected {
        if |data| <= remaining {
          assert data[..accepted] == data == all[transfer.received..];
          assert all <= transfer.payload ==> data == expected;
        }
        pendingPaste := None;
        return Some(PasteFail);
      }
      assert data[..accepted] == data;
      assert all == transfer.payload[..transfer.received + accepted];
      transfer := transfer.(received := transfer.received + accepted);
      if transfer.received == |transfer.payload| {
        pendingPaste := None;
        return Some(PasteOk(|transfer.payload|));
      }
      pendingPaste := Some(transfer);
      return None;
    }
  }

  // The reply to `packets`, `taken` of which were looked at.
  ghost predicate Received(payload: seq<Byte>, packets: seq<seq<Byte>>, reply: Option<Reply>, taken: nat) {
    && taken <= |packets|
    && (reply == None ==> taken == |packets|)
    && (reply != None ==> taken > 0 && Flatten(packets[..taken - 1]) < payload)
    && (reply == None <==> Flatten(packets[..taken]) < payload)
    && (reply == Some(PasteOk(|payload|)) <==> Flatten(packets[..taken]) == payload)
    && (reply == Some(PasteFail) <==> !(Flatten(packets[..taken]) <= payload))
  }

  method Receive(payload: seq<Byte>, packets: seq<seq<Byte>>) returns (reply: Option<Reply>, taken: nat)
    requires payload != []
    ensures Received(payload, packets, reply, taken)
  {
    var fixture := new Fixture(payload);
    reply, taken := None, 0;
    while taken < |packets| && reply == None
      invariant taken <= |packets| && fixture.Valid()
      invariant reply == None <==> Flatten(packets[..taken]) < payload
      invariant reply == None ==>
                  fixture.pendingPaste == Some(PasteTransfer(payload, |Flatten(packets[..taken])|))
      invariant reply != None ==> taken > 0 && Flatten(packets[..taken - 1]) < payload
      invariant reply == Some(PasteOk(|payload|)) <==> Flatten(packets[..taken]) == payload
      invariant reply == Some(PasteFail) <==> !(Flatten(packets[..taken]) <= payload)
    {
      ghost var before := Flatten(packets[..taken]);
      assert payload[..|before|] == before;
      assert packets[..taken + 1] == packets[..taken] + [packets[taken]];
      FlattenSnoc(packets[..taken], packets[taken]);
      reply := fixture.Data(packets[taken]);
      taken := taken + 1;
    }
  }

  // ----- which streams match, however they are cut -----

  lemma Grows(packets: seq<seq<Byte>>, i: nat, j: nat)
    requires i <= j <= |packets|
    ensures Flatten(packets[..i]) <= Flatten(packets[..j])
  {
    assert packets[..j] == packets[..i] + packets[i..j];
    FlattenAppend(packets[..i], packets[i..j]);
  }

  // Some number of packets is as long as the payload.
  ghost predicate CutAt(packets: seq<seq<Byte>>, length: nat) {
    exists k :: 0 <= k <= |packets| && |Flatten(packets[..k])| == length
  }

  lemma Prefixes(t: seq<Byte>, s: seq<Byte>, p: seq<Byte>)
    requires t <= s
    ensures s <= p ==> t <= p
    ensures p <= s && |t| <= |p| ==> t <= p
    ensures p <= s && |t| == |p| ==> t == p
  {
  }

  lemma NotCutBefore(payload: seq<Byte>, packets: seq<seq<Byte>>, reply: Option<Reply>, taken: nat, k: nat)
    requires Received(payload, packets, reply, taken) && k <= |packets| && Flatten(packets[..k]) == payload
    ensures reply == Some(PasteOk(|payload|))
  {
    if k < taken {
      Grows(packets, k, if reply == None then taken else taken - 1);
      assert false;
    }
    Grows(packets, taken, k);
  }

  // The reply depends on the stream alone unless more than the payload comes in:
  // then it depends on whether the stream is cut at the payload's end.
  lemma ReplyToStream(payload: seq<Byte>, packets: seq<seq<Byte>>, reply: Option<Reply>, taken: nat)
    requires payload != [] && Received(payload, packets, reply, taken)
    ensures Flatten(packets) < payload ==> reply == None
    ensures Flatten(packets) == payload ==> reply == Some(PasteOk(|payload|))
    ensures !(Flatten(packets) <= payload) && !(payload <= Flatten(packets)) ==> reply == Some(PasteFail)
    ensures payload < Flatten(packets) ==>
              reply == if CutAt(packets, |payload|) then Some(PasteOk(|payload|)) else Some(PasteFail)
  {
    var (s, t) := (Flatten(packets), Flatten(packets[..taken]));
    assert packets[..|packets|] == packets;
    Grows(packets, taken, |packets|);
    Prefixes(t, s, payload);
    if payload <= s && CutAt(packets, |payload|) {
      var k :| 0 <= k <= |packets| && |Flatten(packets[..k])| == |payload|;
      Grows(packets, k, |packets|);
      Prefixes(Flatten(packets[..k]), s, payload);
      NotCutBefore(payload, packets, reply, taken, k);
    }
    if s == payload {
      NotCutBefore(payload, packets, reply, taken, |packets|);
    }
  }

  // The same stream, one byte too long, matches if the byte comes in a packet of
  // its own and fails if it comes with the rest.
  lemma CuttingDecides(payload: seq<Byte>, extra: Byte, apart: Option<Reply>, m: nat, together: Option<Reply>, n: nat)
    requires payload != []
    requires Received(payload, [payload, [extra]], apart, m) && Received(payload, [payload + [extra]], together, n)
    ensures Flatten([payload, [extra]]) == Flatten([payload + [extra]])
    ensures apart == Some(PasteOk(|payload|)) && together == Some(PasteFail)
  {
    var (two, one) := ([payload, [extra]], [payload + [extra]]);
    FlattenSnoc([payload], [extra]);
    FlattenSnoc([], payload);
    FlattenSnoc([], payload + [extra]);
    assert two == [payload] + [[extra]] && [payload] == [] + [payload] && one == [] + [payload + [extra]];
    assert two[..1] == [payload];
    assert one[..0] == [] && one[..1] == one;
    ReplyToStream(payload, two, apart, m);
    ReplyToStream(payload, one, together, n);
  }
}
