// The authentication driver: it asks the machine what to do next, talks to the
// server and the user, and keeps the log of what happened.
module AuthenticationDriver {
  import opened Options
  import opened Authentication
  import opened AuthenticationLog

  // An answer to go on with, or the end of the run.
  datatype Step<T> = Next(value: T) | Stop(outcome: Outcome)

  function Awaited<T>(exchange: Exchange<T>): Step<T> {
    match exchange
    case Completed(value) => Next(value)
    case ExchangeFailed => Stop(Failed(ExchangeError))
    case ExchangeCancelled => Stop(Cancelled)
    case ExchangeTimedOut => Stop(Failed(ExchangeTimeout))
  }

  // The user is prompted through the callback and answers on the channel.
  function Prompted(w: World, now: nat): Step<Command> {
    if !w.delivered(now) then Stop(Failed(CallbackUndelivered))
    else
      match w.user(now)
      case Received(command) => Next(command)
      case WaitCancelled => Stop(Cancelled)
      case WaitTimedOut => Stop(Failed(ResponseTimeout))
  }

  // The log ends with `last` and leads to `p`, and is in order.
  ghost predicate Recorded(c: Config, w: World, log: seq<Entry>, last: Event, p: Position) {
    && log != [] && LastEvent(log) == last && Replay(log) == p
    && Lawful(c, log) && Truthful(c, w, log) && Steady(log) && Agreeing(c, log)
  }

  // The machine agrees with it.
  ghost predicate InOrder(c: Config, w: World, log: seq<Entry>, last: Event, p: Position, s: State) {
    && Recorded(c, w, log, last, p) && Agrees(c, s, p)
  }

  // The server's result is for the run to go on with at this point.
  ghost predicate Stands(c: Config, w: World, p: Position, last: Event, now: nat, result: AuthResult) {
    match result
    case AuthSuccess => Explains(c, w, p, last, now, Authenticated)
    case AuthFailure(remaining, partialSuccess) => Reports(c, w, Refusal(remaining, partialSuccess), now)
  }

  ghost predicate Ends(c: Config, w: World, log: seq<Entry>, outcome: Outcome) {
    && Lawful(c, log) && Truthful(c, w, log) && Steady(log) && Agreeing(c, log) && Explained(c, w, log, outcome)
    && (outcome == Failed(FromMachine(NoSupportedMethod)) <==> NothingUsable(c, log))
  }

  lemma EndsElsewhere(c: Config, w: World, log: seq<Entry>, last: Event, p: Position, outcome: Outcome)
    requires Recorded(c, w, log, last, p) && !last.Refusal?
    requires Explains(c, w, p, last, |log|, outcome)
    requires outcome != Failed(FromMachine(NoSupportedMethod))
    ensures Ends(c, w, log, outcome)
  {
  }

  // As long as no method was started in it, a run has only sent `none`.
  lemma {:induction false} NothingStarted(c: Config, log: seq<Entry>)
    requires Lawful(c, log) && log != []
    ensures var p := Replay(log);
            && p.begun
            && (p.interactive || p.open.Some? ==> p.tried != {})
            && (p.offered.None? && p.asked.None? && p.tried == {} <==> |log| == 1)
  {
    if |log| > 1 {
      NothingStarted(c, log[..|log| - 1]);
    } else {
      assert log[..0] == [];
    }
  }

  lemma EndsAtSelection(c: Config, w: World, init: seq<Entry>, q: Position, entry: Entry, p: Position, failure: Failure)
    requires Lawful(c, init) && init != [] && Replay(init) == q && q.offered.None? && q.asked.None?
    requires Recorded(c, w, init + [entry], entry.event, p) && entry.event.Refusal?
    requires Explains(c, w, p, entry.event, |init| + 1, Failed(FromMachine(failure)))
    requires failure == NoSupportedMethod <==>
             !entry.event.partialSuccess && q.tried == {} && Best(c, {}, entry.event.remaining).None?
    ensures Ends(c, w, init + [entry], Failed(FromMachine(failure)))
  {
    NothingStarted(c, init);
  }

  // One more event: the machine is in state `t` when it is logged.
  lemma Grow(c: Config, w: World, log: seq<Entry>, last: Event, p: Position, e: Event, t: State)
    requires Recorded(c, w, log, last, p) && Allowed(c, p, e) && Reports(c, w, e, |log|)
    requires SteadyEntry(Entry(e, t)) && Agrees(c, t, if e.Refusal? then p else Advance(p, e))
    ensures Recorded(c, w, log + [Entry(e, t)], e, Advance(p, e))
  {
    Append(c, log, Entry(e, t));
  }

  // The loop behind a keyboard-interactive start: challenges are presented and
  // answered until the server accepts or refuses.
  method RunInteractive(c: Config, w: World, state: AuthStateMachine, before: seq<Entry>, ghost start: Position)
    returns (log: seq<Entry>, step: Step<AuthResult>, ghost last: Event, ghost p: Position)
    requires InOrder(c, w, before, Started(KeyboardInteractive), start, state.Value())
    requires Choosing(start) && start.interactive
    modifies state
    ensures step.Next? ==>
              && InOrder(c, w, log, last, p, state.Value()) && Choosing(p)
              && Stands(c, w, p, last, |log|, step.value)
              && Untried(state.Value()) == Untried(old(state.Value()))
              && state.authStages == old(state.authStages)
    ensures step.Stop? ==> Ends(c, w, log, step.outcome)
  {
    log, last, p := before, Started(KeyboardInteractive), start;
    step := Stop(Cancelled);
    var response := Awaited(w.interactive(|log|));
    while response.Next? && response.value.InfoRequest?
      invariant InOrder(c, w, log, last, p, state.Value()) && Choosing(p) && p.interactive
      invariant p.tried == start.tried && p.stage == start.stage
      invariant last == Started(KeyboardInteractive) || last.Responded?
      invariant response == Awaited(w.interactive(|log|))
      decreases MAX_INTERACTIVE_ROUNDS - p.rounds
    {
      var InfoRequest(name, instructions, prompts) := response.value;
      var outcome;
      log, response, outcome, last, p := PoseChallenge(c, w, state, name, instructions, prompts, log, last, p);
      if outcome.Some? {
        return log, Stop(outcome.value), last, p;
      }
    }
    match response
    case Stop(outcome) => step := Stop(outcome); EndsElsewhere(c, w, log, last, p, outcome);
    case Next(InteractiveSuccess) => step := Stop(Authenticated); EndsElsewhere(c, w, log, last, p, Authenticated);
    case Next(InteractiveFailure(remaining, partialSuccess)) => step := Next(AuthFailure(remaining, partialSuccess));
  }

  // One challenge: it is presented, and the user's answer goes to the server.
  method PoseChallenge(c: Config, w: World, state: AuthStateMachine, name: string, instructions: string,
                       prompts: seq<Prompt>, before: seq<Entry>, ghost last0: Event, ghost start: Position)
    returns (log: seq<Entry>, response: Step<InteractiveResponse>, outcome: Option<Outcome>,
             ghost last: Event, ghost p: Position)
    requires InOrder(c, w, before, last0, start, state.Value()) && AwaitsInteractive(last0)
    requires Choosing(start) && start.interactive
    requires w.interactive(|before|) == Completed(InfoRequest(name, instructions, prompts))
    modifies state
    ensures outcome.None? ==>
              && InOrder(c, w, log, last, p, state.Value()) && Choosing(p) && p.interactive && last.Responded?
              && p == start.(rounds := start.rounds + 1) && p.rounds <= MAX_INTERACTIVE_ROUNDS
              && response == Awaited(w.interactive(|log|))
    ensures outcome.Some? ==> Ends(c, w, log, outcome.value)
    ensures Untried(state.Value()) == Untried(old(state.Value())) && state.authStages == old(state.authStages)
  {
    log, last, p := before, last0, start;
    response := Stop(Cancelled);
    PresentStep(c, state.Value(), p, name, instructions, prompts);
    var action := state.PresentChallengeToUser(name, instructions, prompts);
    if action.Fail? {
      EndsElsewhere(c, w, log, last, p, Failed(FromMachine(action.failure)));
      return log, response, Some(Failed(FromMachine(action.failure))), last, p;
    }
    var e := Presented(action.challenge);
    Grow(c, w, log, last, p, e, state.Value());
    log, last, p := log + [Entry(e, state.Value())], e, Advance(p, e);
    var prompted := Prompted(w, |log|);
    if prompted.Stop? {
      EndsElsewhere(c, w, log, last, p, prompted.outcome);
      return log, response, Some(prompted.outcome), last, p;
    }
    log, response, outcome, last, p := Answer(c, w, state, log, prompted.value, e.challenge, p);
  }

  // The user's answer to the challenge just presented goes to the server.
  method Answer(c: Config, w: World, state: AuthStateMachine, before: seq<Entry>, command: Command,
                challenge: Challenge, ghost start: Position)
    returns (log: seq<Entry>, response: Step<InteractiveResponse>, outcome: Option<Outcome>,
             ghost last: Event, ghost p: Position)
    requires InOrder(c, w, before, Presented(challenge), start, state.Value())
    requires start.stage <= MAX_AUTH_STAGES && start.interactive && start.begun && start.offered.None?
    requires start.open == Some((challenge.roundId, |challenge.prompts|))
    requires w.delivered(|before|) && w.user(|before|) == Received(command)
    modifies state
    ensures outcome.None? ==>
              && InOrder(c, w, log, last, p, state.Value()) && Choosing(p) && p.interactive && last.Responded?
              && p == start.(open := None)
              && response == Awaited(w.interactive(|log|))
    ensures outcome.Some? ==> Ends(c, w, log, outcome.value)
    ensures Untried(state.Value()) == Untried(old(state.Value())) && state.authStages == old(state.authStages)
  {
    log, last, p := before, Presented(challenge), start;
    response := Stop(Cancelled);
    if !command.ResponsesCommand? {
      EndsElsewhere(c, w, log, last, p, Failed(FromMachine(UnexpectedCredential)));
      return log, response, Some(Failed(FromMachine(UnexpectedCredential))), last, p;
    }
    var ResponsesCommand(roundId, responses) := command;
    ValidateStep(c, state.Value(), p, roundId, responses);
    var verdict := state.ValidateResponses(roundId, responses);
    if verdict.Refused? {
      EndsElsewhere(c, w, log, last, p, Failed(FromMachine(verdict.failure)));
      return log, response, Some(Failed(FromMachine(verdict.failure))), last, p;
    }
    var e := Responded(roundId, responses);
    Grow(c, w, log, last, p, e, state.Value());
    log, last, p := log + [Entry(e, state.Value())], e, Advance(p, e);
    response := Awaited(w.interactive(|log|));
    outcome := None;
  }

  // Ask for a credential, hand it to the machine and send it to the server.
  method RunCredential(c: Config, w: World, state: AuthStateMachine, m: Method, before: seq<Entry>,
                       ghost start: Position)
    returns (log: seq<Entry>, step: Step<AuthResult>, ghost last: Event, ghost p: Position)
    requires InOrder(c, w, before, Asked(m), start, state.Value())
    requires start.stage <= MAX_AUTH_STAGES && start.begun && start.asked == Some(m) && NeedsCredential(c, m)
    requires start.open.None? && start.offered.None?
    modifies state
    ensures step.Next? ==>
              && InOrder(c, w, log, last, p, state.Value()) && Choosing(p)
              && Stands(c, w, p, last, |log|, step.value)
              && Untried(state.Value()) < Untried(old(state.Value()))
              && state.authStages == old(state.authStages)
    ensures step.Stop? ==> Ends(c, w, log, step.outcome)
  {
    log, last, p := before, Asked(m), start;
    var prompted := Prompted(w, |log|);
    if prompted.Stop? {
      EndsElsewhere(c, w, log, last, p, prompted.outcome);
      return log, Stop(prompted.outcome), last, p;
    }
    if (m == Password && !prompted.value.PasswordCommand?) || (m == PublicKey && !prompted.value.PassphraseCommand?) {
      EndsElsewhere(c, w, log, last, p, Failed(FromMachine(UnexpectedCredential)));
      return log, Stop(Failed(FromMachine(UnexpectedCredential))), last, p;
    }
    SubmitStep(c, state.Value(), p, m);
    if m == Password {
      var verdict := state.SubmitPasswordEntry();
      if verdict.Refused? {
        assert false;
      }
    } else {
      var action := state.SubmitPrivateKeyPassphrase();
      if action.Fail? {
        assert false;
      }
    }
    var e := Started(m);
    Grow(c, w, log, last, p, e, state.Value());
    log, last, p := log + [Entry(e, state.Value())], e, Advance(p, e);
    step := Awaited(w.server(|log|));
    if step.Stop? {
      EndsElsewhere(c, w, log, last, p, step.outcome);
    }
  }

  // The refusal is logged and the machine selects.
  method Choose(c: Config, w: World, state: AuthStateMachine, remaining: seq<Method>, partialSuccess: bool,
                before: seq<Entry>, ghost last: Event, ghost start: Position)
    returns (log: seq<Entry>, action: Action, ghost p: Position)
    requires InOrder(c, w, before, last, start, state.Value()) && Choosing(start)
    requires Reports(c, w, Refusal(remaining, partialSuccess), |before|)
    modifies state
    ensures action.Fail? ==> Ends(c, w, log, Failed(FromMachine(action.failure)))
    ensures !action.PresentChallenge?
    ensures !action.Fail? ==>
              && Recorded(c, w, log, Refusal(remaining, partialSuccess), p)
              && Allowed(c, p, Selection(action)) && Agrees(c, state.Value(), Advance(p, Selection(action)))
              && p == Advance(start, Refusal(remaining, partialSuccess))
              && (Selection(action).Started? <==> !NeedsCredential(c, Selection(action).m))
              && (if partialSuccess then state.authStages == old(state.authStages) + 1
                  else
                    && state.authStages == old(state.authStages)
                    && if Selection(action).Started? then Untried(state.Value()) < Untried(old(state.Value()))
                       else Untried(state.Value()) == Untried(old(state.Value())))
  {
    var refusal := Entry(Refusal(remaining, partialSuccess), state.Value());
    SelectStep(c, state.Value(), start, remaining, partialSuccess);
    SelectProgress(state.Value(), remaining, partialSuccess);
    Grow(c, w, before, last, start, refusal.event, refusal.state);
    log, p := before + [refusal], Advance(start, refusal.event);
    action := state.SelectNextMethod(remaining, partialSuccess);
    if action.Fail? {
      EndsAtSelection(c, w, before, start, refusal, p, action.failure);
    }
  }

  // What the machine selected is carried out.
  method CarryOut(c: Config, w: World, state: AuthStateMachine, action: Action, before: seq<Entry>,
                  ghost refusal: Event, ghost start: Position)
    returns (log: seq<Entry>, step: Step<AuthResult>, ghost last: Event, ghost p: Position)
    requires !action.Fail? && !action.PresentChallenge? && Recorded(c, w, before, refusal, start)
    requires start.begun && start.stage <= MAX_AUTH_STAGES && start.asked.None? && start.open.None?
    requires Allowed(c, start, Selection(action)) && Agrees(c, state.Value(), Advance(start, Selection(action)))
    requires Selection(action).Started? <==> !NeedsCredential(c, Selection(action).m)
    modifies state
    ensures step.Next? ==>
              && InOrder(c, w, log, last, p, state.Value()) && Choosing(p)
              && Stands(c, w, p, last, |log|, step.value)
              && state.authStages == old(state.authStages)
              && (if Selection(action).Started? then Untried(state.Value()) == Untried(old(state.Value()))
                  else Untried(state.Value()) < Untried(old(state.Value())))
    ensures step.Stop? ==> Ends(c, w, log, step.outcome)
  {
    var e := Selection(action);
    Grow(c, w, before, refusal, start, e, state.Value());
    log, last, p := before + [Entry(e, state.Value())], e, Advance(start, e);
    match action
    case AttemptPublicKey =>
      step := Awaited(w.server(|log|));
      if step.Stop? {
        EndsElsewhere(c, w, log, last, p, step.outcome);
      }
    case RequestPrivateKeyPassphrase => log, step, last, p := RunCredential(c, w, state, PublicKey, log, p);
    case RequestPassword => log, step, last, p := RunCredential(c, w, state, Password, log, p);
    case StartKeyboardInteractive => log, step, last, p := RunInteractive(c, w, state, log, p);
  }

  // One turn: the machine selects and the selection is carried out.
  method Turn(c: Config, w: World, state: AuthStateMachine, remaining: seq<Method>, partialSuccess: bool,
              before: seq<Entry>, ghost last0: Event, ghost start: Position)
    returns (log: seq<Entry>, step: Step<AuthResult>, ghost last: Event, ghost p: Position)
    requires InOrder(c, w, before, last0, start, state.Value()) && Choosing(start)
    requires Reports(c, w, Refusal(remaining, partialSuccess), |before|)
    modifies state
    ensures step.Next? ==>
              && InOrder(c, w, log, last, p, state.Value()) && Choosing(p)
              && Stands(c, w, p, last, |log|, step.value)
              && (state.authStages == old(state.authStages) + 1 ||
                  (state.authStages == old(state.authStages) &&
                   Untried(state.Value()) < Untried(old(state.Value()))))
    ensures step.Stop? ==> Ends(c, w, log, step.outcome)
  {
    var action;
    log, action, p := Choose(c, w, state, remaining, partialSuccess, before, last0, start);
    last := Refusal(remaining, partialSuccess);
    if action.Fail? {
      return log, Stop(Failed(FromMachine(action.failure))), last, p;
    }
    log, step, last, p := CarryOut(c, w, state, action, log, last, p);
  }

  // A whole run against any world. Its log obeys the rules, tells the truth
  // and explains the outcome.
  method RunAuthentication(c: Config, w: World) returns (log: seq<Entry>, outcome: Outcome)
    ensures Lawful(c, log) && Truthful(c, w, log) && Steady(log) && Agreeing(c, log)
    ensures Explained(c, w, log, outcome)
    ensures outcome == Failed(FromMachine(NoSupportedMethod)) <==> NothingUsable(c, log)
  {
    var state := new AuthStateMachine(c.hasPrivateKey, c.requiresPassphrase);
    log := [Entry(SentNone, state.Value())];
    assert log[..0] == [];
    ghost var last, p := SentNone, Advance(START, SentNone);
    var step: Step<AuthResult> := Awaited(w.server(|log|));
    if step.Stop? {
      EndsElsewhere(c, w, log, last, p, step.outcome);
    }
    while step.Next? && step.value.AuthFailure?
      invariant fresh(state)
      invariant step.Next? ==>
                  && InOrder(c, w, log, last, p, state.Value()) && Choosing(p)
                  && Stands(c, w, p, last, |log|, step.value)
      invariant step.Stop? ==> Ends(c, w, log, step.outcome)
      decreases step.Next?, MAX_AUTH_STAGES + 1 - state.authStages, Untried(state.Value())
    {
      var AuthFailure(remaining, partialSuccess) := step.value;
      log, step, last, p := Turn(c, w, state, remaining, partialSuccess, log, last, p);
    }
    if step.Next? {
      EndsElsewhere(c, w, log, last, p, Authenticated);
      return log, Authenticated;
    }
    outcome := step.outcome;
  }
}
