// What each event does to the output loop, in bytes and numbers: when output is
// handed over, when the channel is read, and when the loop ends.
module OutputProgress {
  import opened Utf8
  import opened Sequences
  import opened Options
  import opened OutputDelivery

  // ----- the vocabulary -----

  lemma {:induction false} BytesAppend(a: seq<Message>, b: seq<Message>)
    ensures Bytes(a + b) == Bytes(a) + Bytes(b)
  {
    if b == [] {
      EmptyRight(a);
      EmptyRight(Bytes(a));
    } else {
      var (front, last) := (b[..|b| - 1], b[|b| - 1]);
      SnocOfAppend(a, b);
      BytesAppend(a, front);
      Associative(Bytes(a), Bytes(front), Payload(last));
    }
  }

  lemma SnocOfAppend<T>(a: seq<T>, b: seq<T>)
    requires b != []
    ensures (a + b)[..|a + b| - 1] == a + b[..|b| - 1] && (a + b)[|a + b| - 1] == b[|b| - 1]
  {
  }

  lemma SnocOfOne<T>(x: T)
    ensures [x][..0] == []
  {
  }

  // Both kinds of data count as output, and nothing else does.
  lemma BytesOfOne(m: Message)
    ensures Bytes([m]) == if m.Data? || m.ExtendedData? then m.bytes else []
  {
    SnocOfOne(m);
  }

  lemma {:induction false} AcceptedAppend(a: seq<Attempt>, b: seq<Attempt>)
    ensures Accepted(a + b) == Accepted(a) + Accepted(b)
  {
    if b == [] {
      EmptyRight(a);
      EmptyRight(Accepted(a));
    } else {
      var (front, last) := (b[..|b| - 1], b[|b| - 1]);
      SnocOfAppend(a, b);
      AcceptedAppend(a, front);
      Associative(Accepted(a), Accepted(front), if last.status == Ok then last.batch else []);
    }
  }

  lemma AcceptedOfOne(batch: seq<Byte>, status: Status)
    ensures Accepted([Attempt(batch, status)]) == if status == Ok then batch else []
  {
    SnocOfOne(Attempt(batch, status));
  }

  // No batch is empty, and a refused one begins the next.
  ghost predicate RefusedBeginsNext(attempts: seq<Attempt>) {
    && (forall i :: 0 <= i < |attempts| ==> attempts[i].batch != [])
    && (forall i, j :: 0 <= i < j < |attempts| && j == i + 1 && attempts[i].status != Ok ==>
          attempts[i].batch <= attempts[j].batch)
  }

  lemma RefusedBeginsNextSnoc(before: seq<Attempt>, last: Attempt)
    ensures RefusedBeginsNext(before + [last]) <==>
            RefusedBeginsNext(before) && last.batch != [] && RefusedIsPending(before, last.batch)
  {
    var all := before + [last];
    assert all[|before|] == last && forall i :: 0 <= i < |before| ==> all[i] == before[i];
    if RefusedBeginsNext(all) {
      assert before != [] ==> all[|before| - 1] == before[|before| - 1];
    }
  }

  lemma {:induction false} RetriedMeaning(attempts: seq<Attempt>)
    ensures RetriedInFront(attempts) <==> RefusedBeginsNext(attempts)
  {
    if attempts == [] {
    } else {
      var (before, last) := (attempts[..|attempts| - 1], attempts[|attempts| - 1]);
      RetriedMeaning(before);
      RefusedBeginsNextSnoc(before, last);
      FrontAndLast(attempts);
    }
  }

  lemma FrontAndLast<T>(s: seq<T>)
    requires s != []
    ensures s[..|s| - 1] + [s[|s| - 1]] == s
  {
  }

  // ----- every reachable state -----

  lemma StepSnoc(events: seq<Event>, e: Event, channel: seq<Message>)
    ensures Steps(events + [e], channel) == Step(Steps(events, channel), e, channel)
  {
    assert (events + [e])[..|events|] == events;
  }

  lemma SkippingKeepsStream(s: Loop, t: Loop, channel: seq<Message>)
    requires s.consumed < |channel| && ExactStream(s, channel) && Payload(channel[s.consumed]) == []
    requires t.pending == s.pending && t.attempts == s.attempts && t.consumed == s.consumed + 1
    ensures ExactStream(t, channel)
  {
    NoBytes(channel, s.consumed);
  }

  lemma ReadKeepsStream(s: Loop, channel: seq<Message>, status: Status)
    requires ExactStream(s, channel)
    ensures ExactStream(ReadNext(s, channel, status), channel)
  {
    if s.consumed >= |channel| {
    } else if DataIsNext(s, channel) {
      TakenKeeps(s, channel, Payload(channel[s.consumed]), status);
    } else {
      SkippingKeepsStream(s, ReadNext(s, channel, status), channel);
    }
  }

  lemma {:induction false} StreamIsExact(events: seq<Event>, channel: seq<Message>)
    ensures ExactStream(Steps(events, channel), channel)
  {
    if events == [] {
      assert channel[..0] == [];
    } else {
      var (front, e) := (events[..|events| - 1], events[|events| - 1]);
      var s := Steps(front, channel);
      StreamIsExact(front, channel);
      match e
      case OutputTick(status) =>
        if s.pending != [] {
          OfferedKeeps(s, channel, status);
        }
      case Readable(status) => ReadKeepsStream(s, channel, status);
      case _ =>
    }
  }

  // ----- ticks -----

  // A tick hands over everything that waits, in one batch, and does nothing else.
  lemma TickOffers(events: seq<Event>, channel: seq<Message>, status: Status)
    requires !Steps(events, channel).ended
    ensures var (s, t) := (Steps(events, channel), Steps(events + [OutputTick(status)], channel));
            && t.attempts == s.attempts + (if s.pending == [] then [] else [Attempt(s.pending, status)])
            && t.pending == (if status == Ok then [] else s.pending)
            && t.consumed == s.consumed && t.paused == s.paused && !t.ended && t.exitCode == s.exitCode
  {
    StepSnoc(events, OutputTick(status), channel);
    EmptyRight(Steps(events, channel).attempts);
  }

  // Behind a tick that the callback accepted, everything read has been delivered.
  lemma TickDelivers(events: seq<Event>, channel: seq<Message>)
    requires !Steps(events, channel).ended
    ensures var t := Steps(events + [OutputTick(Ok)], channel);
            && t.pending == [] && t.consumed == Steps(events, channel).consumed <= |channel|
            && Accepted(t.attempts) == Bytes(channel[..t.consumed])
  {
    var t := Steps(events + [OutputTick(Ok)], channel);
    TickOffers(events, channel, Ok);
    StreamIsExact(events + [OutputTick(Ok)], channel);
    EmptyRight(Accepted(t.attempts));
  }

  // ----- reading -----

  // The loop would read.
  ghost predicate Reads(s: Loop) {
    !s.ended && !s.paused && |s.pending| < 524288
  }

  ghost predicate AtOnce(waiting: nat, length: nat) {
    (waiting == 0 && 1 <= length <= 256) || waiting + length >= 65536
  }

  lemma TakenExactly(s: Loop, data: seq<Byte>, status: Status)
    ensures var (t, now) := (Taken(s, data, status), AtOnce(|s.pending|, |data|));
            && t.attempts == s.attempts + (if now then [Attempt(s.pending + data, status)] else [])
            && t.pending == (if now && status == Ok then [] else s.pending + data)
            && t == s.(attempts := t.attempts, pending := t.pending, consumed := s.consumed + 1)
  {
    EmptyRight(s.attempts);
    assert |s.pending| == 0 <==> s.pending == [];
  }

  // A packet of 1 to 256 bytes that is alone, or that makes 64 KiB wait, is handed
  // over at once with all that waits; any other only joins it.
  lemma PacketIsTaken(events: seq<Event>, channel: seq<Message>, status: Status, data: seq<Byte>)
    requires Reads(Steps(events, channel)) && Steps(events, channel).consumed < |channel|
    requires channel[Steps(events, channel).consumed] in {Data(data), ExtendedData(data)}
    ensures var (s, t) := (Steps(events, channel), Steps(events + [Readable(status)], channel));
            var (all, now) := (s.pending + data, AtOnce(|s.pending|, |data|));
            && t.attempts == s.attempts + (if now then [Attempt(all, status)] else [])
            && t.pending == (if now && status == Ok then [] else all)
            && t.consumed == s.consumed + 1 && !t.paused && !t.ended && t.exitCode == s.exitCode
  {
    StepSnoc(events, Readable(status), channel);
    TakenExactly(Steps(events, channel), data, status);
  }

  ghost predicate DataIsNext(s: Loop, channel: seq<Message>) {
    s.consumed < |channel| && (channel[s.consumed].Data? || channel[s.consumed].ExtendedData?)
  }

  // Of the other messages, an exit status and a close end the loop, and so does
  // the end of the channel; none of them touches the output.
  lemma MessageIsTaken(events: seq<Event>, channel: seq<Message>, status: Status)
    requires Reads(Steps(events, channel))
    requires !DataIsNext(Steps(events, channel), channel)
    ensures var (s, t) := (Steps(events, channel), Steps(events + [Readable(status)], channel));
            && t.attempts == s.attempts && t.pending == s.pending && !t.paused
            && if s.consumed >= |channel| then t.ended && t.consumed == s.consumed && t.exitCode == s.exitCode
               else
                 var m := channel[s.consumed];
                 && t.consumed == s.consumed + 1
                 && (t.ended <==> m.ExitStatus? || m == Close)
                 && t.exitCode == (if m.ExitStatus? then m.code else s.exitCode)
  {
    StepSnoc(events, Readable(status), channel);
  }

  // Otherwise nothing is read: the channel pushes back.
  lemma NothingIsRead(events: seq<Event>, channel: seq<Message>, status: Status)
    requires !Reads(Steps(events, channel))
    ensures Steps(events + [Readable(status)], channel) == Steps(events, channel)
  {
    StepSnoc(events, Readable(status), channel);
  }

  lemma {:induction false} PausedStays(events: seq<Event>, more: seq<Event>, channel: seq<Message>)
    requires Steps(events, channel).paused && forall i :: 0 <= i < |more| ==> !more[i].Pause?
    ensures var (s, t) := (Steps(events, channel), Steps(events + more, channel));
            t.consumed == s.consumed && t.paused
  {
    if more == [] {
      EmptyRight(events);
    } else {
      var (front, e) := (more[..|more| - 1], more[|more| - 1]);
      PausedStays(events, front, channel);
      SnocOfAppend(events, more);
      assert !e.Pause?;
    }
  }

  // A paused loop reads nothing until the next word about pausing, however long
  // that takes; the output it holds can still leave.
  lemma PausedReadsNothing(events: seq<Event>, more: seq<Event>, channel: seq<Message>)
    requires Steps(events, channel).paused && forall i :: 0 <= i < |more| ==> !more[i].Pause?
    ensures var (s, t) := (Steps(events, channel), Steps(events + more, channel));
            && t.consumed == s.consumed && t.paused
            && Accepted(t.attempts) + t.pending == Accepted(s.attempts) + s.pending
  {
    PausedStays(events, more, channel);
    StreamIsExact(events, channel);
    StreamIsExact(events + more, channel);
  }

  // ----- the other events -----

  // A disconnect and the end of the connection end the loop; pausing follows the
  // last word about it, and a word that never comes again means reading.
  lemma OtherEvents(events: seq<Event>, channel: seq<Message>, e: Event)
    requires !Steps(events, channel).ended && !e.OutputTick? && !e.Readable?
    ensures var (s, t) := (Steps(events, channel), Steps(events + [e], channel));
            && t.attempts == s.attempts && t.pending == s.pending
            && t.consumed == s.consumed && t.exitCode == s.exitCode
            && (t.ended <==> e == Disconnect || e == TaskEnded)
            && t.paused == (if e.Pause? then e.paused == Some(true) else s.paused)
  {
    StepSnoc(events, e, channel);
  }

  // ----- whole runs -----

  // The loop starts with nothing, and after its end nothing changes.
  lemma FirstAndLast(events: seq<Event>, more: seq<Event>, channel: seq<Message>)
    ensures Steps([], channel) == Loop([], [], 0, false, false, -1)
    ensures Steps(events, channel).ended ==> Steps(events + more, channel) == Steps(events, channel)
  {
    assert (events + more)[..|events|] == events;
    if Steps(events, channel).ended {
      EndedStays(events + more, channel, |events|);
    }
  }

  ghost predicate EndsChannel(m: Message) {
    m.ExitStatus? || m == Close
  }

  // The exit code is that of the message that ended the loop, or -1; and before
  // the last message read there is none that ends it.
  ghost predicate ExitCodeTold(s: Loop, channel: seq<Message>) {
    && s.consumed <= |channel|
    && (forall i :: 0 <= i < s.consumed - 1 ==> !EndsChannel(channel[i]))
    && (s.consumed > 0 && EndsChannel(channel[s.consumed - 1]) ==> s.ended)
    && s.exitCode == if s.consumed > 0 && channel[s.consumed - 1].ExitStatus? then channel[s.consumed - 1].code else -1
  }

  lemma ReadingTellsExitCode(s: Loop, channel: seq<Message>, status: Status)
    requires ExitCodeTold(s, channel) && !s.ended
    ensures ExitCodeTold(ReadNext(s, channel, status), channel)
  {
    if s.consumed < |channel| {
      assert forall i :: 0 <= i < s.consumed ==> !EndsChannel(channel[i]);
    }
  }

  lemma {:induction false} ExitCodeIsTold(events: seq<Event>, channel: seq<Message>)
    ensures ExitCodeTold(Steps(events, channel), channel)
  {
    if events == [] {
    } else {
      var (front, e) := (events[..|events| - 1], events[|events| - 1]);
      ExitCodeIsTold(front, channel);
      if e.Readable? && !Steps(front, channel).ended {
        ReadingTellsExitCode(Steps(front, channel), channel, e.status);
      }
    }
  }
}
