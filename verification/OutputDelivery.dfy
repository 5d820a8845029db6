// Terminal output on its way from the SSH channel to the terminal: a buffer
// that is handed over in batches through a callback that may refuse.
module OutputDelivery {
  import opened Utf8
  import opened Sequences
  import opened Options

  const IMMEDIATE_BYTES: nat := 256
  const FLUSH_BYTES: nat := 64 * 1024
  const BUFFER_BYTES: nat := 512 * 1024
  const FINAL_DELIVERY_RETRY_ATTEMPTS: nat := 128

  // A callback either queues the value or, whatever else it says, does not.
  datatype Status = Ok | QueueFull | OtherFailure

  datatype Message =
    | Data(bytes: seq<Byte>)
    | ExtendedData(bytes: seq<Byte>)
    | ExitStatus(code: int)
    | Eof
    | Close
    | OtherMessage

  // What the loop can wake up for. A tick or a read that leads to a delivery
  // meets the given status. Reading finds the next message of the channel, or
  // its end.
  datatype Event =
    | OutputTick(status: Status)
    | MetricsTick
    | Pause(paused: Option<bool>)
    | Readable(status: Status)
    | Disconnect
    | TaskEnded

  // A batch handed to the callback, and what the callback said.
  datatype Attempt = Attempt(batch: seq<Byte>, status: Status)

  class OutputDeliveryMetrics {
    var receivedBytes: nat
    var napiQueuedBytes: nat
    var callbackRetries: nat
    var finalDeliveryFailures: nat
    var finalDeliveryFailedBytes: nat
    var outputBatches: nat

    constructor ()
      ensures receivedBytes == napiQueuedBytes == callbackRetries == 0
      ensures finalDeliveryFailures == finalDeliveryFailedBytes == outputBatches == 0
    {
      receivedBytes, napiQueuedBytes, callbackRetries := 0, 0, 0;
      finalDeliveryFailures, finalDeliveryFailedBytes, outputBatches := 0, 0, 0;
    }

    method RecordCallbackAttempt(status: Status, outputLength: nat) returns (queued: bool)
      modifies this
      ensures queued <==> status == Ok
      ensures napiQueuedBytes == old(napiQueuedBytes) + (if queued then outputLength else 0)
      ensures outputBatches == old(outputBatches) + (if queued then 1 else 0)
      ensures callbackRetries == old(callbackRetries) + (if queued then 0 else 1)
      ensures unchanged(`receivedBytes) && unchanged(`finalDeliveryFailures) && unchanged(`finalDeliveryFailedBytes)
    {
      if status == Ok {
        napiQueuedBytes := napiQueuedBytes + outputLength;
        outputBatches := outputBatches + 1;
        return true;
      }
      callbackRetries := callbackRetries + 1;
      return false;
    }

    method RecordFinalDeliveryFailure(outputLength: nat)
      modifies this
      ensures finalDeliveryFailures == old(finalDeliveryFailures) + 1
      ensures finalDeliveryFailedBytes == old(finalDeliveryFailedBytes) + outputLength
      ensures unchanged(`receivedBytes) && unchanged(`napiQueuedBytes) && unchanged(`callbackRetries)
      ensures unchanged(`outputBatches)
    {
      finalDeliveryFailures := finalDeliveryFailures + 1;
      finalDeliveryFailedBytes := finalDeliveryFailedBytes + outputLength;
    }
  }

  predicate ShouldFlushImmediately(pendingEmpty: bool, length: nat) {
    pendingEmpty && 0 < length <= IMMEDIATE_BYTES
  }

  // ----- what was read and what was handed over -----

  function Payload(m: Message): seq<Byte> {
    match m
    case Data(bytes) => bytes
    case ExtendedData(bytes) => bytes
    case _ => []
  }

  // The bytes of the messages, in order.
  function Bytes(messages: seq<Message>): seq<Byte> {
    if messages == [] then []
    else Bytes(messages[..|messages| - 1]) + Payload(messages[|messages| - 1])
  }

  // The batches the callback accepted, one after the other.
  function Accepted(attempts: seq<Attempt>): seq<Byte> {
    if attempts == [] then []
    else
      var last := attempts[|attempts| - 1];
      Accepted(attempts[..|attempts| - 1]) + (if last.status == Ok then last.batch else [])
  }

  function AcceptedCount(attempts: seq<Attempt>): nat {
    if attempts == [] then 0
    else AcceptedCount(attempts[..|attempts| - 1]) + (if attempts[|attempts| - 1].status == Ok then 1 else 0)
  }

  // A batch that was refused last stands in front of what is pending.
  predicate RefusedIsPending(attempts: seq<Attempt>, pending: seq<Byte>) {
    attempts != [] && attempts[|attempts| - 1].status != Ok ==> attempts[|attempts| - 1].batch <= pending
  }

  // Every batch holds something, and a refused batch comes back at the front
  // of the next one.
  predicate RetriedInFront(attempts: seq<Attempt>) {
    attempts == [] ||
    var (before, last) := (attempts[..|attempts| - 1], attempts[|attempts| - 1]);
    RetriedInFront(before) && last.batch != [] && RefusedIsPending(before, last.batch)
  }

  // The numbers of the metrics tell the story of the attempts.
  ghost predicate Counted(metrics: OutputDeliveryMetrics, attempts: seq<Attempt>, received: nat)
    reads metrics
  {
    && metrics.receivedBytes == received
    && metrics.napiQueuedBytes == |Accepted(attempts)|
    && metrics.outputBatches == AcceptedCount(attempts)
    && metrics.callbackRetries == |attempts| - AcceptedCount(attempts)
  }

  lemma AttemptSnoc(attempts: seq<Attempt>, a: Attempt)
    ensures Accepted(attempts + [a]) == Accepted(attempts) + (if a.status == Ok then a.batch else [])
    ensures AcceptedCount(attempts + [a]) == AcceptedCount(attempts) + (if a.status == Ok then 1 else 0)
  {
    assert (attempts + [a])[..|attempts|] == attempts;
  }

  // One more attempt with everything that is pending.
  lemma Attempted(attempts: seq<Attempt>, pending: seq<Byte>, status: Status)
    requires pending != [] && RetriedInFront(attempts) && RefusedIsPending(attempts, pending)
    ensures var (attempts', pending') := (attempts + [Attempt(pending, status)], if status == Ok then [] else pending);
            && Accepted(attempts') + pending' == Accepted(attempts) + pending
            && RetriedInFront(attempts') && RefusedIsPending(attempts', pending')
  {
    AttemptSnoc(attempts, Attempt(pending, status));
    RetriedSnoc(attempts, Attempt(pending, status));
    EmptyRight(Accepted(attempts));
    EmptyRight(Accepted(attempts) + pending);
  }

  lemma RetriedSnoc(attempts: seq<Attempt>, a: Attempt)
    requires RetriedInFront(attempts) && RefusedIsPending(attempts, a.batch) && a.batch != []
    ensures RetriedInFront(attempts + [a])
  {
    assert (attempts + [a])[..|attempts|] == attempts;
  }

  lemma Waits(attempts: seq<Attempt>, pending: seq<Byte>, data: seq<Byte>)
    requires RefusedIsPending(attempts, pending)
    ensures RefusedIsPending(attempts, pending + data)
    ensures Accepted(attempts) + (pending + data) == (Accepted(attempts) + pending) + data
  {
    Associative(Accepted(attempts), pending, data);
  }

  // ----- the loop -----

  // The state of the loop in terms of the channel: `consumed` messages were
  // read from it.
  datatype Loop = Loop(
    pending: seq<Byte>,
    attempts: seq<Attempt>,
    consumed: nat,
    paused: bool,
    ended: bool,
    exitCode: int)

  const INITIAL: Loop := Loop([], [], 0, false, false, -1)

  // The whole buffer was handed over.
  function Offered(s: Loop, status: Status): Loop {
    s.(attempts := s.attempts + [Attempt(s.pending, status)], pending := if status == Ok then [] else s.pending)
  }

  function Appended(s: Loop, data: seq<Byte>): Loop {
    s.(pending := s.pending + data, consumed := s.consumed + 1)
  }

  // A packet is delivered at once if it is short and alone or if much is waiting.
  function Taken(s: Loop, data: seq<Byte>, status: Status): Loop {
    var t := Appended(s, data);
    if ShouldFlushImmediately(s.pending == [], |data|) || |t.pending| >= FLUSH_BYTES then Offered(t, status) else t
  }

  function ReadNext(s: Loop, channel: seq<Message>, status: Status): Loop {
    if s.consumed >= |channel| then s.(ended := true)
    else
      match channel[s.consumed]
      case Data(data) => Taken(s, data, status)
      case ExtendedData(data) => Taken(s, data, status)
      case ExitStatus(code) => s.(consumed := s.consumed + 1, exitCode := code, ended := true)
      case Close => s.(consumed := s.consumed + 1, ended := true)
      case _ => s.(consumed := s.consumed + 1)
  }

  function Step(s: Loop, e: Event, channel: seq<Message>): Loop {
    if s.ended then s
    else
      match e
      case OutputTick(status) => if s.pending == [] then s else Offered(s, status)
      case MetricsTick => s
      case Pause(paused) => s.(paused := paused.Some? && paused.value)
      case Readable(status) =>
        if s.paused || |s.pending| >= BUFFER_BYTES then s else ReadNext(s, channel, status)
      case Disconnect => s.(ended := true)
      case TaskEnded => s.(ended := true)
  }

  function Steps(events: seq<Event>, channel: seq<Message>): Loop {
    if events == [] then INITIAL
    else Step(Steps(events[..|events| - 1], channel), events[|events| - 1], channel)
  }

  // The output is an exact ordered stream.
  predicate ExactStream(s: Loop, channel: seq<Message>) {
    && s.consumed <= |channel|
    && Accepted(s.attempts) + s.pending == Bytes(channel[..s.consumed])
    && RetriedInFront(s.attempts) && RefusedIsPending(s.attempts, s.pending)
  }

  // A full buffer means that the callback refused last.
  predicate PressureMeansRefusal(s: Loop) {
    |s.pending| >= FLUSH_BYTES ==> s.attempts != [] && s.attempts[|s.attempts| - 1].status != Ok
  }

  predicate PacketsWithin(channel: seq<Message>, m: nat) {
    forall i :: 0 <= i < |channel| ==> |Payload(channel[i])| <= m
  }

  predicate Bounded(length: nat, channel: seq<Message>) {
    forall m :: PacketsWithin(channel, m) ==> length <= BUFFER_BYTES - 1 + m
  }

  // Everything that holds whenever the loop looks at its events.
  ghost predicate InOrder(metrics: OutputDeliveryMetrics, s: Loop, channel: seq<Message>)
    reads metrics
  {
    && ExactStream(s, channel) && PressureMeansRefusal(s) && Bounded(|s.pending|, channel)
    && Counted(metrics, s.attempts, |Bytes(channel[..s.consumed])|)
    && metrics.finalDeliveryFailures == metrics.finalDeliveryFailedBytes == 0
  }

  lemma BytesSnoc(channel: seq<Message>, i: nat)
    requires i < |channel|
    ensures Bytes(channel[..i + 1]) == Bytes(channel[..i]) + Payload(channel[i])
  {
    assert channel[..i + 1][..i] == channel[..i];
  }

  lemma AppendedKeeps(s: Loop, channel: seq<Message>)
    requires s.consumed < |channel| && ExactStream(s, channel)
    ensures ExactStream(Appended(s, Payload(channel[s.consumed])), channel)
  {
    BytesSnoc(channel, s.consumed);
    Waits(s.attempts, s.pending, Payload(channel[s.consumed]));
  }

  lemma OfferedKeeps(s: Loop, channel: seq<Message>, status: Status)
    requires s.pending != [] && ExactStream(s, channel)
    ensures ExactStream(Offered(s, status), channel) && PressureMeansRefusal(Offered(s, status))
  {
    Attempted(s.attempts, s.pending, status);
  }

  lemma TakenKeeps(s: Loop, channel: seq<Message>, data: seq<Byte>, status: Status)
    requires s.consumed < |channel| && data == Payload(channel[s.consumed]) && ExactStream(s, channel)
    ensures var t := Taken(s, data, status);
            ExactStream(t, channel) && PressureMeansRefusal(t) && |t.pending| <= |s.pending| + |data|
  {
    var t := Appended(s, data);
    AppendedKeeps(s, channel);
    if t.pending != [] {
      OfferedKeeps(t, channel, status);
    }
  }

  // Hand the whole buffer over; keep it if the callback refuses.
  method Deliver(metrics: OutputDeliveryMetrics, s: Loop, status: Status) returns (t: Loop)
    requires Counted(metrics, s.attempts, metrics.receivedBytes)
    modifies metrics
    ensures t == Offered(s, status)
    ensures Counted(metrics, t.attempts, old(metrics.receivedBytes))
    ensures metrics.finalDeliveryFailures == old(metrics.finalDeliveryFailures)
    ensures metrics.finalDeliveryFailedBytes == old(metrics.finalDeliveryFailedBytes)
  {
    var output := s.pending;
    t := s.(pending := []);
    AttemptSnoc(s.attempts, Attempt(output, status));
    var queued := metrics.RecordCallbackAttempt(status, |output|);
    t := t.(attempts := s.attempts + [Attempt(output, status)]);
    if !queued {
      t := t.(pending := output);
    }
  }

  // One packet of data: append it, and deliver at once if it is short and
  // alone or if much is waiting.
  method TakeData(metrics: OutputDeliveryMetrics, s: Loop, channel: seq<Message>, data: seq<Byte>, status: Status)
    returns (t: Loop)
    requires s.consumed < |channel| && data == Payload(channel[s.consumed]) && ExactStream(s, channel)
    requires Counted(metrics, s.attempts, |Bytes(channel[..s.consumed])|)
    modifies metrics
    ensures t == Taken(s, data, status)
    ensures ExactStream(t, channel) && PressureMeansRefusal(t)
    ensures Counted(metrics, t.attempts, |Bytes(channel[..t.consumed])|)
    ensures |t.pending| <= |s.pending| + |data|
    ensures metrics.finalDeliveryFailures == old(metrics.finalDeliveryFailures)
    ensures metrics.finalDeliveryFailedBytes == old(metrics.finalDeliveryFailedBytes)
  {
    BytesSnoc(channel, s.consumed);
    metrics.receivedBytes := metrics.receivedBytes + |data|;
    var immediate := ShouldFlushImmediately(s.pending == [], |data|);
    t := s.(pending := s.pending + data, consumed := s.consumed + 1);
    if immediate || |t.pending| >= FLUSH_BYTES {
      t := Deliver(metrics, t, status);
    }
    TakenKeeps(s, channel, data, status);
  }

  lemma NoBytes(channel: seq<Message>, i: nat)
    requires i < |channel| && Payload(channel[i]) == []
    ensures Bytes(channel[..i + 1]) == Bytes(channel[..i])
  {
    BytesSnoc(channel, i);
    EmptyRight(Bytes(channel[..i]));
  }

  // A buffer below its limit stays within the bound when one more packet comes.
  lemma StillBounded(before: nat, after: nat, channel: seq<Message>, i: nat)
    requires i < |channel| && before < BUFFER_BYTES && after <= before + |Payload(channel[i])|
    ensures Bounded(after, channel)
  {
    assert forall m :: PacketsWithin(channel, m) ==> |Payload(channel[i])| <= m;
  }

  // One message of the channel, or its end.
  method Read(metrics: OutputDeliveryMetrics, s: Loop, channel: seq<Message>, status: Status) returns (t: Loop)
    requires InOrder(metrics, s, channel) && |s.pending| < BUFFER_BYTES
    modifies metrics
    ensures t == ReadNext(s, channel, status)
    ensures InOrder(metrics, t, channel)
  {
    if s.consumed == |channel| {
      return s.(ended := true);
    }
    var next := s.(consumed := s.consumed + 1);
    var message := channel[s.consumed];
    if message.Data? || message.ExtendedData? {
      t := TakeData(metrics, s, channel, message.bytes, status);
      StillBounded(|s.pending|, |t.pending|, channel, s.consumed);
      return;
    }
    NoBytes(channel, s.consumed);
    match message
    case ExitStatus(code) => t := next.(exitCode := code, ended := true);
    case Close => t := next.(ended := true);
    case Eof => t := next;
    case OtherMessage => t := next;
  }

  // The periodic delivery of whatever waits.
  method Tick(metrics: OutputDeliveryMetrics, s: Loop, channel: seq<Message>, status: Status) returns (t: Loop)
    requires InOrder(metrics, s, channel)
    modifies metrics
    ensures InOrder(metrics, t, channel)
    ensures t == if s.pending == [] then s else Offered(s, status)
  {
    t := s;
    if s.pending != [] {
      t := Deliver(metrics, s, status);
      OfferedKeeps(s, channel, status);
    }
  }

  // What a loop that has not ended does with one event.
  method HandleEvent(metrics: OutputDeliveryMetrics, s: Loop, e: Event, channel: seq<Message>) returns (t: Loop)
    requires InOrder(metrics, s, channel) && !s.ended
    modifies metrics
    ensures t == Step(s, e, channel)
    ensures InOrder(metrics, t, channel)
  {
    t := s;
    match e {
      case OutputTick(status) => t := Tick(metrics, s, channel, status);
      case MetricsTick =>
      case Pause(paused) => t := s.(paused := paused.Some? && paused.value);
      case Readable(status) =>
        if !s.paused && |s.pending| < BUFFER_BYTES {
          t := Read(metrics, s, channel, status);
        }
      case Disconnect => t := s.(ended := true);
      case TaskEnded => t := s.(ended := true);
    }
  }

  lemma {:induction false} EndedStays(events: seq<Event>, channel: seq<Message>, i: nat)
    requires i <= |events| && Steps(events[..i], channel).ended
    ensures Steps(events, channel) == Steps(events[..i], channel)
  {
    if i == |events| {
      assert events[..i] == events;
    } else {
      var front := events[..|events| - 1];
      assert front[..i] == events[..i];
      EndedStays(front, channel, i);
    }
  }

  // The loop over any sequence of events, and so, the sequence being any
  // prefix of a longer one, in every state it can reach.
  method RunOutputLoop(metrics: OutputDeliveryMetrics, events: seq<Event>, channel: seq<Message>) returns (s: Loop)
    requires Counted(metrics, [], 0) && metrics.finalDeliveryFailures == metrics.finalDeliveryFailedBytes == 0
    modifies metrics
    ensures s == Steps(events, channel)
    ensures InOrder(metrics, s, channel)
  {
    s := INITIAL;
    assert channel[..0] == [];
    var i := 0;
    while i < |events| && !s.ended
      invariant i <= |events|
      invariant s == Steps(events[..i], channel)
      invariant InOrder(metrics, s, channel)
    {
      assert events[..i + 1][..i] == events[..i];
      s := HandleEvent(metrics, s, events[i], channel);
      i := i + 1;
    }
    if s.ended {
      EndedStays(events, channel, i);
    } else {
      assert events[..i] == events;
    }
  }

  // ----- the last delivery -----

  // One more of the final offers.
  method OfferAgain(metrics: OutputDeliveryMetrics, t: Loop, ghost channel: seq<Message>, status: Status)
    returns (u: Loop)
    requires t.pending != [] && ExactStream(t, channel) && Counted(metrics, t.attempts, metrics.receivedBytes)
    modifies metrics
    ensures u == Offered(t, status) && ExactStream(u, channel)
    ensures Counted(metrics, u.attempts, old(metrics.receivedBytes))
    ensures metrics.finalDeliveryFailures == old(metrics.finalDeliveryFailures)
    ensures metrics.finalDeliveryFailedBytes == old(metrics.finalDeliveryFailedBytes)
  {
    OfferedKeeps(t, channel, status);
    u := Deliver(metrics, t, status);
  }

  // `batch` was offered once for each of the answers up to the first `Ok`, at
  // most 128 times, and not at all if it is empty.
  ghost predicate FinalOffers(before: seq<Attempt>, attempts: seq<Attempt>, batch: seq<Byte>, answers: nat -> Status) {
    var n := |attempts| - |before|;
    && before <= attempts && n <= 128 && (n == 0 <==> batch == [])
    && (forall i :: 0 <= i < n ==> attempts[|before| + i] == Attempt(batch, answers(i)))
    && (forall i :: 0 <= i < n - 1 ==> answers(i) != Ok)
    && (0 < n < 128 ==> answers(n - 1) == Ok)
  }

  // One of the first 128 answers is `Ok`.
  ghost predicate AcceptsInTime(answers: nat -> Status) {
    exists i: nat :: i < 128 && answers(i) == Ok
  }

  // From `s` to `t` there were `n` offers, all but the last one refused.
  ghost predicate OfferedSoFar(s: Loop, t: Loop, answers: nat -> Status, n: nat) {
    && s.attempts <= t.attempts && |t.attempts| == |s.attempts| + n
    && (forall i :: 0 <= i < n ==> t.attempts[|s.attempts| + i] == Attempt(s.pending, answers(i)))
    && (forall i :: 0 <= i < n - 1 ==> answers(i) != Ok)
    && t.pending == if n > 0 && answers(n - 1) == Ok then [] else s.pending
  }

  lemma OneMoreOffer(s: Loop, t: Loop, answers: nat -> Status, n: nat)
    requires OfferedSoFar(s, t, answers, n) && t.pending != []
    ensures OfferedSoFar(s, Offered(t, answers(n)), answers, n + 1)
  {
  }

  lemma OffersConclude(s: Loop, t: Loop, answers: nat -> Status, n: nat)
    requires OfferedSoFar(s, t, answers, n) && s.pending != [] && n <= 128 && (n == 128 || t.pending == [])
    ensures FinalOffers(s.attempts, t.attempts, s.pending, answers)
    ensures t.pending == if AcceptsInTime(answers) then [] else s.pending
  {
    if t.pending == [] {
      assert AcceptsInTime(answers);
    }
  }

  // What is still pending when the loop ends is offered again up to 128 times.
  method DeliverFinal(metrics: OutputDeliveryMetrics, s: Loop, channel: seq<Message>, answers: nat -> Status)
    returns (attempts: seq<Attempt>, lost: seq<Byte>)
    requires InOrder(metrics, s, channel)
    modifies metrics
    ensures FinalOffers(s.attempts, attempts, s.pending, answers)
    ensures lost == if AcceptsInTime(answers) then [] else s.pending
    ensures Accepted(attempts) + lost == Bytes(channel[..s.consumed])
    ensures RetriedInFront(attempts)
    ensures Counted(metrics, attempts, |Bytes(channel[..s.consumed])|)
    ensures metrics.receivedBytes == metrics.napiQueuedBytes + metrics.finalDeliveryFailedBytes
    ensures metrics.finalDeliveryFailedBytes == |lost|
    ensures metrics.finalDeliveryFailures == if lost == [] then 0 else 1
  {
    var t := s;
    attempts, lost := t.attempts, t.pending;
    if t.pending == [] {
      return;
    }
    var attempt := 0;
    while attempt < FINAL_DELIVERY_RETRY_ATTEMPTS && t.pending != []
      invariant attempt <= FINAL_DELIVERY_RETRY_ATTEMPTS && OfferedSoFar(s, t, answers, attempt)
      invariant t.consumed == s.consumed && ExactStream(t, channel)
      invariant Counted(metrics, t.attempts, |Bytes(channel[..s.consumed])|)
      invariant metrics.finalDeliveryFailures == metrics.finalDeliveryFailedBytes == 0
    {
      OneMoreOffer(s, t, answers, attempt);
      t := OfferAgain(metrics, t, channel, answers(attempt));
      attempt := attempt + 1;
    }
    OffersConclude(s, t, answers, attempt);
    attempts, lost := t.attempts, t.pending;
    if lost != [] {
      metrics.RecordFinalDeliveryFailure(|lost|);
    }
  }

  datatype Totals = Totals(received: nat, queued: nat, failures: nat, failed: nat, batches: nat, retries: nat)

  // A whole session's output. Whatever happens, the batches that were accepted
  // are the bytes read, in order and without a gap, up to a suffix that was
  // refused 128 times at the end; and the metrics account for every byte.
  method RunOutput(events: seq<Event>, channel: seq<Message>, answers: nat -> Status)
    returns (attempts: seq<Attempt>, lost: seq<Byte>, consumed: nat, totals: Totals)
    ensures consumed == Steps(events, channel).consumed
    ensures FinalOffers(Steps(events, channel).attempts, attempts, Steps(events, channel).pending, answers)
    ensures lost == if AcceptsInTime(answers) then [] else Steps(events, channel).pending
    ensures consumed <= |channel| && Accepted(attempts) + lost == Bytes(channel[..consumed])
    ensures RetriedInFront(attempts)
    ensures totals.received == |Bytes(channel[..consumed])| == totals.queued + totals.failed
    ensures totals.failed == |lost| && totals.failures == (if lost == [] then 0 else 1)
    ensures totals.batches == AcceptedCount(attempts) && totals.batches + totals.retries == |attempts|
    ensures Bounded(|lost|, channel)
  {
    var metrics := new OutputDeliveryMetrics();
    var s := RunOutputLoop(metrics, events, channel);
    consumed := s.consumed;
    attempts, lost := DeliverFinal(metrics, s, channel, answers);
    totals := Totals(metrics.receivedBytes, metrics.napiQueuedBytes, metrics.finalDeliveryFailures,
                     metrics.finalDeliveryFailedBytes, metrics.outputBatches, metrics.callbackRetries);
  }
}
