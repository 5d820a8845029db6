// The log of an authentication run, and the rules every log must obey. The
// rules know nothing of the state machine: they speak of what was sent, what
// the server answered and what the user was shown.
module AuthenticationLog {
  import opened Options
  import opened Authentication

  // ----- the world around a run -----

  datatype Exchange<T> = Completed(value: T) | ExchangeFailed | ExchangeCancelled | ExchangeTimedOut
  datatype AuthResult = AuthSuccess | AuthFailure(remaining: seq<Method>, partialSuccess: bool)
  datatype InteractiveResponse =
    | InteractiveSuccess
    | InteractiveFailure(remaining: seq<Method>, partialSuccess: bool)
    | InfoRequest(name: string, instructions: string, prompts: seq<Prompt>)
  datatype Command =
    | PassphraseCommand(passphrase: string)
    | PasswordCommand(password: string)
    | ResponsesCommand(roundId: nat, responses: seq<string>)
  datatype Wait = Received(command: Command) | WaitCancelled | WaitTimedOut

  // Server, user interface and callback as adversaries: what each of them does
  // when the log has the given length. Any answer is possible at any moment.
  datatype World = World(
    server: nat -> Exchange<AuthResult>,
    interactive: nat -> Exchange<InteractiveResponse>,
    user: nat -> Wait,
    delivered: nat -> bool)

  datatype Config = Config(hasPrivateKey: bool, requiresPassphrase: bool)

  // ----- the log -----

  datatype Event =
    | SentNone                                        // the initial `none` request
    | Started(m: Method)                              // a method was sent to the server
    | Responded(roundId: nat, responses: seq<string>) // answers to a challenge were sent
    | Asked(m: Method)                                // the user was asked for a credential
    | Presented(challenge: Challenge)                 // the user was shown a challenge
    | Refusal(remaining: seq<Method>, partialSuccess: bool)

  // An event with the state of the machine when it was logged.
  datatype Entry = Entry(event: Event, state: State)

  predicate IsExchange(e: Event) {
    e.SentNone? || e.Started? || e.Responded?
  }

  predicate IsPrompt(e: Event) {
    e.Asked? || e.Presented?
  }

  // ----- the rules -----

  // Where a run stands: the stage, the methods started in it, the methods the
  // server last offered when it is the client's turn to choose, the credential
  // the user was asked for, the number of challenges and the unanswered one,
  // and whether the server may send a challenge.
  datatype Position = Position(
    begun: bool,
    stage: nat,
    tried: set<Method>,
    offered: Option<seq<Method>>,
    asked: Option<Method>,
    rounds: nat,
    open: Option<(nat, nat)>,
    interactive: bool)

  const START := Position(false, 1, {}, None, None, 0, None, false)

  // The method to take next: key, then keyboard-interactive, then password.
  function Best(c: Config, tried: set<Method>, offered: seq<Method>): Option<Method> {
    if c.hasPrivateKey && PublicKey !in tried && PublicKey in offered then Some(PublicKey)
    else if KeyboardInteractive !in tried && KeyboardInteractive in offered then Some(KeyboardInteractive)
    else if Password !in tried && Password in offered then Some(Password)
    else None
  }

  predicate NeedsCredential(c: Config, m: Method) {
    m == Password || (m == PublicKey && c.requiresPassphrase)
  }

  predicate Allowed(c: Config, p: Position, e: Event) {
    p.stage <= MAX_AUTH_STAGES &&
    match e
    case SentNone => !p.begun
    case Started(m) =>
      if NeedsCredential(c, m) then p.asked == Some(m)
      else p.offered.Some? && Best(c, p.tried, p.offered.value) == Some(m)
    case Asked(m) =>
      p.offered.Some? && Best(c, p.tried, p.offered.value) == Some(m) && NeedsCredential(c, m)
    case Presented(challenge) =>
      && p.interactive && p.open.None? && p.rounds < MAX_INTERACTIVE_ROUNDS
      && challenge.roundId == p.rounds + 1 && |challenge.prompts| <= MAX_PROMPTS_PER_ROUND
    case Responded(roundId, responses) => p.open == Some((roundId, |responses|))
    case Refusal(_, _) => p.begun && p.offered.None? && p.asked.None? && p.open.None?
  }

  function Advance(p: Position, e: Event): Position {
    match e
    case SentNone => p.(begun := true)
    case Started(m) =>
      p.(tried := p.tried + {m}, offered := None, asked := None, interactive := m == KeyboardInteractive)
    case Asked(m) => p.(offered := None, asked := Some(m))
    case Presented(challenge) => p.(rounds := p.rounds + 1, open := Some((challenge.roundId, |challenge.prompts|)))
    case Responded(_, _) => p.(open := None)
    case Refusal(remaining, partialSuccess) =>
      if partialSuccess then p.(stage := p.stage + 1, tried := {}, offered := Some(remaining), interactive := false)
      else p.(offered := Some(remaining), interactive := false)
  }

  function Replay(log: seq<Entry>): Position {
    if log == [] then START else Advance(Replay(log[..|log| - 1]), log[|log| - 1].event)
  }

  // The state of the machine says the same as the log.
  predicate Agrees(c: Config, s: State, p: Position) {
    && s.hasPrivateKey == c.hasPrivateKey && s.requiresPassphrase == c.requiresPassphrase
    && s.stages == p.stage && 1 <= p.stage
    && (s.publicKeyAttempted <==> PublicKey in p.tried)
    && (s.interactiveAttempted <==> KeyboardInteractive in p.tried)
    && (s.passwordAttempted <==> Password in p.tried)
    && (s.anyMethodAttempted <==> p.tried != {})
    && s.pendingChallenge == p.open
    && s.waitingFor == (match p.asked
                        case Some(PublicKey) => Some(PrivateKeyPassphrase)
                        case Some(Password) => Some(PasswordEntry)
                        case _ => None)
    && s.interactiveRounds == p.rounds && s.nextRoundId == p.rounds + 1
    && !(s.waitingFor.Some? && s.pendingChallenge.Some?)
    && p.rounds <= MAX_INTERACTIVE_ROUNDS
    && (p.interactive ==> KeyboardInteractive in p.tried && p.asked.None?)
    && (p.asked.Some? ==> p.asked.value != KeyboardInteractive)
  }

  // Every event obeys the rules.
  predicate Lawful(c: Config, log: seq<Entry>) {
    log == [] ||
    var before, e := log[..|log| - 1], log[|log| - 1].event;
    Lawful(c, before) && Allowed(c, Replay(before), e)
  }

  // The machine, whenever an event is logged, waits for a credential or for
  // the answer to a challenge but not for both, and for neither when the next
  // method is about to be selected. Its round numbers never come near overflow.
  predicate SteadyEntry(entry: Entry) {
    var s := entry.state;
    && !(s.waitingFor.Some? && s.pendingChallenge.Some?)
    && (entry.event.Refusal? ==> s.waitingFor.None? && s.pendingChallenge.None?)
    && s.nextRoundId == s.interactiveRounds + 1 <= MAX_INTERACTIVE_ROUNDS + 1
  }

  predicate Steady(log: seq<Entry>) {
    forall i :: 0 <= i < |log| ==> SteadyEntry(log[i])
  }

  // Whenever an event is logged the machine says the same as the log: as the log
  // before a refusal, which it has yet to take in, and as the log with any other
  // event.
  predicate AgreesWhenLogged(c: Config, before: seq<Entry>, entry: Entry) {
    Agrees(c, entry.state, if entry.event.Refusal? then Replay(before) else Advance(Replay(before), entry.event))
  }

  predicate Agreeing(c: Config, log: seq<Entry>) {
    log == [] ||
    var (before, last) := (log[..|log| - 1], log[|log| - 1]);
    Agreeing(c, before) && AgreesWhenLogged(c, before, last)
  }

  // Every event that reports something is what the world did at that point.
  predicate Reports(c: Config, w: World, e: Event, i: nat) {
    match e
    case SentNone => i == 0
    case Asked(_) => true
    case Started(m) =>
      NeedsCredential(c, m) ==>
        && w.delivered(i) && w.user(i).Received?
        && if m == Password then w.user(i).command.PasswordCommand? else w.user(i).command.PassphraseCommand?
    case Responded(roundId, responses) =>
      && w.delivered(i) && w.user(i) == Received(ResponsesCommand(roundId, responses))
      && ResponsesWithinLimits(responses)
    case Presented(challenge) =>
      && w.interactive(i).Completed? && w.interactive(i).value.InfoRequest?
      && var InfoRequest(name, instructions, prompts) := w.interactive(i).value;
         && ChallengeWithinLimits(name, instructions, prompts)
         && challenge == Challenge(challenge.roundId, Sanitize(name), Sanitize(instructions), SanitizePrompts(prompts))
    case Refusal(remaining, partialSuccess) =>
      || w.server(i) == Completed(AuthFailure(remaining, partialSuccess))
      || w.interactive(i) == Completed(InteractiveFailure(remaining, partialSuccess))
  }

  predicate Truthful(c: Config, w: World, log: seq<Entry>) {
    forall i :: 0 <= i < |log| ==> Reports(c, w, log[i].event, i)
  }

  // ----- how a run ends -----

  datatype Reason =
    | FromMachine(failure: Failure)
    | ExchangeError
    | ExchangeTimeout
    | CallbackUndelivered
    | ResponseTimeout
  datatype Outcome = Authenticated | Cancelled | Failed(reason: Reason)

  function LastEvent(log: seq<Entry>): Event
    requires log != []
  {
    log[|log| - 1].event
  }

  predicate Explained(c: Config, w: World, log: seq<Entry>, outcome: Outcome) {
    log != [] && Explains(c, w, Replay(log), LastEvent(log), |log|, outcome)
  }

  // Behind which event the run waits for a challenge or result of an interactive
  // exchange, for a result of any other exchange, or for the user.
  predicate AwaitsInteractive(last: Event) {
    last == Started(KeyboardInteractive) || last.Responded?
  }

  predicate AwaitsServer(last: Event) {
    IsExchange(last) && !AwaitsInteractive(last)
  }

  predicate Answered(w: World, last: Event, now: nat) {
    IsPrompt(last) && w.delivered(now) && w.user(now).Received?
  }

  // The kind of command that belongs to a prompt.
  predicate Fitting(prompt: Event, command: Command)
    requires IsPrompt(prompt)
  {
    if prompt.Presented? then command.ResponsesCommand?
    else if prompt.m == Password then command.PasswordCommand?
    else command.PassphraseCommand?
  }

  // What must have happened last for a run to end like this: `last` is the
  // last event, `p` where the log has led to, `now` the present.
  predicate Explains(c: Config, w: World, p: Position, last: Event, now: nat, outcome: Outcome) {
    match outcome
    case Authenticated =>
      || (AwaitsInteractive(last) && w.interactive(now) == Completed(InteractiveSuccess))
      || (AwaitsServer(last) && w.server(now) == Completed(AuthSuccess))
    case Cancelled =>
      || (AwaitsInteractive(last) && w.interactive(now) == ExchangeCancelled)
      || (AwaitsServer(last) && w.server(now) == ExchangeCancelled)
      || (IsPrompt(last) && w.delivered(now) && w.user(now) == WaitCancelled)
    case Failed(ExchangeError) =>
      || (AwaitsInteractive(last) && w.interactive(now) == ExchangeFailed)
      || (AwaitsServer(last) && w.server(now) == ExchangeFailed)
    case Failed(ExchangeTimeout) =>
      || (AwaitsInteractive(last) && w.interactive(now) == ExchangeTimedOut)
      || (AwaitsServer(last) && w.server(now) == ExchangeTimedOut)
    case Failed(CallbackUndelivered) => IsPrompt(last) && !w.delivered(now)
    case Failed(ResponseTimeout) => IsPrompt(last) && w.delivered(now) && w.user(now) == WaitTimedOut
    case Failed(FromMachine(failure)) =>
      match failure {
        // No method is left to try.
        case Rejected => last.Refusal? && Best(c, p.tried, last.remaining).None?
        case NoSupportedMethod => last.Refusal? && Best(c, p.tried, last.remaining).None?
        // The user interface sent another kind of answer than asked for.
        case UnexpectedCredential => Answered(w, last, now) && !Fitting(last, w.user(now).command)
        case UnexpectedChallenge => false
        // It answered another challenge, or with another number of answers.
        case StaleChallenge =>
          && last.Presented? && Answered(w, last, now) && Fitting(last, w.user(now).command)
          && w.user(now).command.roundId != last.challenge.roundId
        case ResponseCountMismatch =>
          && last.Presented? && Answered(w, last, now) && Fitting(last, w.user(now).command)
          && |w.user(now).command.responses| != |last.challenge.prompts|
        // Too many stages, too many or too large challenges, too large answers.
        case ProtocolLimitExceeded =>
          || (last.Refusal? && last.partialSuccess && p.stage > MAX_AUTH_STAGES)
          || (AwaitsInteractive(last) && ChallengeRefused(p, w.interactive(now)))
          || (last.Presented? && Answered(w, last, now) && Fitting(last, w.user(now).command) &&
              !ResponsesWithinLimits(w.user(now).command.responses))
      }
  }

  predicate ChallengeRefused(p: Position, answer: Exchange<InteractiveResponse>) {
    && answer.Completed? && answer.value.InfoRequest?
    && (p.rounds >= MAX_INTERACTIVE_ROUNDS ||
        !ChallengeWithinLimits(answer.value.name, answer.value.instructions, answer.value.prompts))
  }

  // The log of a run in which the server offered nothing usable at once.
  predicate NothingUsable(c: Config, log: seq<Entry>) {
    && |log| == 2 && log[1].event.Refusal? && !log[1].event.partialSuccess
    && Best(c, {}, log[1].event.remaining).None?
  }

  // ----- steps of the machine and steps of the log -----

  lemma Append(c: Config, log: seq<Entry>, entry: Entry)
    requires Lawful(c, log) && Allowed(c, Replay(log), entry.event)
    ensures Lawful(c, log + [entry]) && Replay(log + [entry]) == Advance(Replay(log), entry.event)
    ensures Agreeing(c, log) && AgreesWhenLogged(c, log, entry) ==> Agreeing(c, log + [entry])
  {
    assert (log + [entry])[..|log|] == log;
  }

  // It is the client's turn to choose.
  predicate Choosing(p: Position) {
    p.begun && p.stage <= MAX_AUTH_STAGES && p.offered.None? && p.asked.None? && p.open.None?
  }

  // How a selection shows in the log.
  function Selection(action: Action): Event
    requires !action.Fail? && !action.PresentChallenge?
  {
    match action
    case AttemptPublicKey => Started(PublicKey)
    case RequestPrivateKeyPassphrase => Asked(PublicKey)
    case RequestPassword => Asked(Password)
    case StartKeyboardInteractive => Started(KeyboardInteractive)
  }

  lemma SelectStep(c: Config, s: State, p: Position, remaining: seq<Method>, partialSuccess: bool)
    requires Agrees(c, s, p) && Choosing(p)
    ensures var q := Advance(p, Refusal(remaining, partialSuccess));
            var (t, action) := Select(s, remaining, partialSuccess);
            && !action.PresentChallenge?
            && if action.Fail? then
                 && (action.failure == Rejected || action.failure == NoSupportedMethod ||
                     action.failure == ProtocolLimitExceeded)
                 && (action.failure == ProtocolLimitExceeded <==> partialSuccess && p.stage == MAX_AUTH_STAGES)
                 && (action.failure != ProtocolLimitExceeded ==> Best(c, q.tried, remaining).None?)
                 && (action.failure == NoSupportedMethod <==>
                       !partialSuccess && p.tried == {} && Best(c, {}, remaining).None?)
               else
                 && Allowed(c, q, Selection(action)) && Agrees(c, t, Advance(q, Selection(action)))
                 && (Selection(action).Started? <==> !NeedsCredential(c, Selection(action).m))
  {
  }

  // A selection starts a stage or uses up a method of the present one.
  lemma SelectProgress(s: State, remaining: seq<Method>, partialSuccess: bool)
    ensures var (t, action) := Select(s, remaining, partialSuccess);
            action.Fail? || action.PresentChallenge? ||
            if partialSuccess then t.stages == s.stages + 1
            else
              && t.stages == s.stages
              && if Selection(action).Started? then Untried(t) < Untried(s) else Untried(t) == Untried(s)
  {
  }

  // Methods not yet tried in the stage.
  function Untried(s: State): nat {
    (if s.publicKeyAttempted then 0 else 1) + (if s.interactiveAttempted then 0 else 1)
    + (if s.passwordAttempted then 0 else 1)
  }

  lemma SubmitStep(c: Config, s: State, p: Position, m: Method)
    requires Agrees(c, s, p) && p.stage <= MAX_AUTH_STAGES && p.asked == Some(m) && NeedsCredential(c, m)
    requires p.open.None?
    ensures Allowed(c, p, Started(m))
    ensures m == PublicKey ==>
              SubmitPassphrase(s).1 == AttemptPublicKey && Agrees(c, SubmitPassphrase(s).0, Advance(p, Started(m)))
    ensures m == Password ==>
              SubmitPassword(s).1 == Verdict.Accepted && Agrees(c, SubmitPassword(s).0, Advance(p, Started(m)))
  {
  }

  lemma PresentStep(c: Config, s: State, p: Position, name: string, instructions: string, prompts: seq<Prompt>)
    requires Agrees(c, s, p) && p.stage <= MAX_AUTH_STAGES && p.interactive && p.open.None?
    ensures var (t, action) := Present(s, name, instructions, prompts);
            match action
            case PresentChallenge(challenge) =>
              && Allowed(c, p, Presented(challenge)) && Agrees(c, t, Advance(p, Presented(challenge)))
              && ChallengeWithinLimits(name, instructions, prompts)
              && challenge ==
                 Challenge(challenge.roundId, Sanitize(name), Sanitize(instructions), SanitizePrompts(prompts))
              && p.rounds < MAX_INTERACTIVE_ROUNDS
            case Fail(failure) =>
              && failure == ProtocolLimitExceeded
              && (p.rounds >= MAX_INTERACTIVE_ROUNDS || !ChallengeWithinLimits(name, instructions, prompts))
            case _ => false
  {
    SanitizedPrompts(prompts);
  }

  lemma ValidateStep(c: Config, s: State, p: Position, roundId: nat, responses: seq<string>)
    requires Agrees(c, s, p) && p.stage <= MAX_AUTH_STAGES && p.interactive && p.open.Some?
    ensures var ((t, verdict), (openId, count)) := (Validate(s, roundId, responses), p.open.value);
            match verdict
            case Accepted =>
              && Allowed(c, p, Responded(roundId, responses)) && Agrees(c, t, Advance(p, Responded(roundId, responses)))
              && ResponsesWithinLimits(responses)
            case Refused(failure) =>
              || (failure == StaleChallenge && roundId != openId)
              || (failure == ResponseCountMismatch && |responses| != count)
              || (failure == ProtocolLimitExceeded && !ResponsesWithinLimits(responses))
  {
  }
}
