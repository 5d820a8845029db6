// What the rules of the log mean for whole runs: how long a run can be, that
// no method is started twice in a stage, and how challenges and responses
// belong together.
module AuthenticationTheorems {
  import opened Options
  import opened Authentication
  import opened AuthenticationLog

  function Init(log: seq<Entry>): seq<Entry>
    requires log != []
  {
    log[..|log| - 1]
  }

  // ----- every run is short -----

  function Exchanges(log: seq<Entry>): nat {
    if log == [] then 0 else Exchanges(Init(log)) + (if IsExchange(LastEvent(log)) then 1 else 0)
  }

  function Prompts(log: seq<Entry>): nat {
    if log == [] then 0 else Prompts(Init(log)) + (if IsPrompt(LastEvent(log)) then 1 else 0)
  }

  function Tried(p: Position): nat {
    (if PublicKey in p.tried then 1 else 0) + (if KeyboardInteractive in p.tried then 1 else 0)
    + (if Password in p.tried then 1 else 0)
  }

  function CredentialsTried(p: Position): nat {
    (if PublicKey in p.tried then 1 else 0) + (if Password in p.tried then 1 else 0)
  }

  // Positions a lawful log can lead to.
  lemma {:induction false} Reachable(c: Config, log: seq<Entry>)
    requires Lawful(c, log)
    ensures var p := Replay(log);
            && 1 <= p.stage <= MAX_AUTH_STAGES + 1 && p.rounds <= MAX_INTERACTIVE_ROUNDS
            && (p.stage > MAX_AUTH_STAGES ==> p.tried == {} && p.offered.Some?)
            && (!p.begun ==> p == START)
            && (p.interactive ==> KeyboardInteractive in p.tried && p.asked.None? && p.offered.None?)
            && (p.open.Some? ==> p.interactive && p.open.value.0 == p.rounds)
            && (p.offered.Some? ==> p.asked.None?)
            && (p.asked.Some? ==> NeedsCredential(c, p.asked.value) && p.asked.value !in p.tried)
  {
    if log == [] {
    } else {
      Reachable(c, Init(log));
    }
  }

  // At most one `none` request, three methods in each of the stages so far,
  // and one response to each challenge.
  lemma {:induction false} ExchangeBudget(c: Config, log: seq<Entry>)
    requires Lawful(c, log)
    ensures var p := Replay(log);
            Exchanges(log) <=
            (if p.begun then 1 else 0) + 3 * (p.stage - 1) + Tried(p) + p.rounds - (if p.open.Some? then 1 else 0)
  {
    if log == [] {
    } else {
      ExchangeBudget(c, Init(log));
      Reachable(c, Init(log));
      Reachable(c, log);
    }
  }

  // At most two credentials asked for in each of the stages so far, and the
  // challenges.
  lemma {:induction false} PromptBudget(c: Config, log: seq<Entry>)
    requires Lawful(c, log)
    ensures var p := Replay(log);
            Prompts(log) <= 2 * (p.stage - 1) + CredentialsTried(p) + (if p.asked.Some? then 1 else 0) + p.rounds
  {
    if log == [] {
    } else {
      PromptBudget(c, Init(log));
      Reachable(c, Init(log));
      Reachable(c, log);
    }
  }

  // Whatever the server answers and whatever the user does, a run makes at
  // most 33 exchanges with the server and shows the user at most 24 prompts.
  lemma RunsAreBounded(c: Config, log: seq<Entry>)
    requires Lawful(c, log)
    ensures Exchanges(log) <= 33 && Prompts(log) <= 24
  {
    Reachable(c, log);
    ExchangeBudget(c, log);
    PromptBudget(c, log);
  }

  // ----- and some run is that long -----

  const EVERYTHING: Config := Config(true, true)
  const OFFER: seq<Method> := [PublicKey, KeyboardInteractive, Password]

  // A server that refuses every method and asks for no responses in between, and
  // a user who answers everything, such that the log is what happens.
  function WorldOf(log: seq<Entry>): World {
    World(
      (i: nat) =>
        if i < |log| && log[i].event.Refusal? then
          Completed(AuthFailure(log[i].event.remaining, log[i].event.partialSuccess))
        else ExchangeFailed,
      (i: nat) =>
        if i < |log| && log[i].event.Refusal? then
          Completed(InteractiveFailure(log[i].event.remaining, log[i].event.partialSuccess))
        else Completed(InfoRequest("", "", [])),
      (i: nat) =>
        if i < |log| && log[i].event.Responded? then Received(ResponsesCommand(log[i].event.roundId, []))
        else if i < |log| && log[i].event == Started(Password) then Received(PasswordCommand(""))
        else Received(PassphraseCommand("")),
      (i: nat) => true)
  }

  predicate Plain(e: Event) {
    match e
    case Presented(challenge) => challenge == Challenge(challenge.roundId, "", "", [])
    case Responded(_, responses) => responses == []
    case SentNone => false
    case _ => true
  }

  lemma PlainIsTruthful(c: Config, log: seq<Entry>)
    requires log != [] && log[0].event == SentNone && forall i :: 1 <= i < |log| ==> Plain(log[i].event)
    ensures Truthful(c, WorldOf(log), log)
  {
    assert SanitizePrompts([]) == [];
    forall i | 0 <= i < |log| ensures Reports(c, WorldOf(log), log[i].event, i) {
      if i > 0 {
        assert Plain(log[i].event);
      }
    }
  }

  // A lawful log of plain events that leads to `p`, with so many exchanges and
  // prompts.
  ghost predicate Story(log: seq<Entry>, p: Position, exchanges: nat, prompts: nat) {
    && Lawful(EVERYTHING, log) && Replay(log) == p && Exchanges(log) == exchanges && Prompts(log) == prompts
    && log != [] && log[0].event == SentNone && forall i :: 1 <= i < |log| ==> Plain(log[i].event)
  }

  lemma Extend(log: seq<Entry>, p: Position, exchanges: nat, prompts: nat, e: Event) returns (longer: seq<Entry>)
    requires Story(log, p, exchanges, prompts) && Allowed(EVERYTHING, p, e) && Plain(e)
    ensures Story(longer, Advance(p, e), exchanges + (if IsExchange(e) then 1 else 0),
                  prompts + (if IsPrompt(e) then 1 else 0))
  {
    var entry := Entry(e, Initial(true, true));
    longer := log + [entry];
    Append(EVERYTHING, log, entry);
    assert Init(longer) == log;
  }

  // Where a run stands at the end of a stage, and within it before a refusal.
  function Standing(stage: nat, tried: set<Method>, rounds: nat): Position {
    Position(true, stage, tried, None, None, rounds, None, false)
  }

  lemma OneByOne()
    ensures {} + {PublicKey} == {PublicKey}
    ensures {PublicKey} + {KeyboardInteractive} == {PublicKey, KeyboardInteractive}
    ensures {PublicKey, KeyboardInteractive} + {Password} == {PublicKey, KeyboardInteractive, Password}
  {
  }

  // A credential is asked for and sent, and the key or password refused.
  lemma TryCredential(log: seq<Entry>, p: Position, x: nat, y: nat, m: Method) returns (longer: seq<Entry>)
    requires Story(log, p, x, y) && p.stage <= MAX_AUTH_STAGES && p.offered == Some(OFFER)
    requires NeedsCredential(EVERYTHING, m) && Best(EVERYTHING, p.tried, OFFER) == Some(m)
    requires p == Standing(p.stage, p.tried, p.rounds).(offered := Some(OFFER))
    ensures Story(longer, Standing(p.stage, p.tried + {m}, p.rounds), x + 1, y + 1)
  {
    var asked := Extend(log, p, x, y, Asked(m));
    longer := Extend(asked, Advance(p, Asked(m)), x, y + 1, Started(m));
  }

  // Keyboard-interactive is started, and one challenge shown and answered.
  lemma TryInteractive(log: seq<Entry>, p: Position, x: nat, y: nat) returns (longer: seq<Entry>)
    requires Story(log, p, x, y) && p.stage <= MAX_AUTH_STAGES && p.rounds < MAX_INTERACTIVE_ROUNDS
    requires p == Standing(p.stage, {PublicKey}, p.rounds).(offered := Some(OFFER))
    ensures Story(longer, Standing(p.stage, {PublicKey, KeyboardInteractive}, p.rounds + 1).(interactive := true),
                  x + 2, y + 1)
  {
    OneByOne();
    var challenge := Challenge(p.rounds + 1, "", "", []);
    var q := Advance(p, Started(KeyboardInteractive));
    var started := Extend(log, p, x, y, Started(KeyboardInteractive));
    var shown := Extend(started, q, x + 1, y, Presented(challenge));
    longer := Extend(shown, Advance(q, Presented(challenge)), x + 1, y + 1, Responded(p.rounds + 1, []));
  }

  lemma OneMoreStage(log: seq<Entry>, n: nat) returns (longer: seq<Entry>)
    requires n < MAX_AUTH_STAGES && Story(log, AfterStages(n), 1 + 4 * n, 3 * n)
    ensures Story(longer, AfterStages(n + 1), 1 + 4 * (n + 1), 3 * (n + 1))
  {
    OneByOne();
    var (x, y) := (1 + 4 * n, 3 * n);
    longer := Extend(log, AfterStages(n), x, y, Refusal(OFFER, n > 0));
    longer := TryCredential(longer, Standing(n + 1, {}, n).(offered := Some(OFFER)), x, y, PublicKey);
    var tried := Standing(n + 1, {PublicKey}, n);
    longer := Extend(longer, tried, x + 1, y + 1, Refusal(OFFER, false));
    longer := TryInteractive(longer, tried.(offered := Some(OFFER)), x + 1, y + 1);
    tried := Standing(n + 1, {PublicKey, KeyboardInteractive}, n + 1);
    longer := Extend(longer, tried.(interactive := true), x + 3, y + 2, Refusal(OFFER, false));
    longer := TryCredential(longer, tried.(offered := Some(OFFER)), x + 3, y + 2, Password);
  }

  // Where a run stands after `n` stages in which every method was tried and one
  // challenge answered.
  function AfterStages(n: nat): Position {
    if n == 0 then Standing(1, {}, 0) else Standing(n, {PublicKey, KeyboardInteractive, Password}, n)
  }

  // The bounds are reached: a log that obeys the rules and is true in some world
  // has 33 exchanges and 24 prompts.
  lemma BoundsAreReached() returns (log: seq<Entry>, w: World)
    ensures Lawful(EVERYTHING, log) && Truthful(EVERYTHING, w, log)
    ensures Exchanges(log) == 33 && Prompts(log) == 24
  {
    log := [Entry(SentNone, Initial(true, true))];
    assert Init(log) == [];
    var n := 0;
    while n < MAX_AUTH_STAGES
      invariant n <= MAX_AUTH_STAGES && Story(log, AfterStages(n), 1 + 4 * n, 3 * n)
    {
      log := OneMoreStage(log, n);
      n := n + 1;
    }
    w := WorldOf(log);
    PlainIsTruthful(EVERYTHING, log);
  }

  // ----- stages -----

  // No refusal with partial success between two places: the same stage.
  predicate SameStage(log: seq<Entry>, i: nat, j: nat) {
    forall k :: i <= k < j && k < |log| ==> !StartsStage(log[k].event)
  }

  predicate StartsStage(e: Event) {
    e.Refusal? && e.partialSuccess
  }

  // The method was started and no new stage since.
  predicate StartedInStage(log: seq<Entry>, m: Method) {
    exists i :: 0 <= i < |log| && log[i].event == Started(m) && SameStage(log, i, |log|)
  }

  lemma StageSnoc(log: seq<Entry>, i: nat)
    requires i < |log|
    ensures SameStage(log, i, |log|) <==>
            !StartsStage(LastEvent(log)) && (i == |log| - 1 || SameStage(Init(log), i, |log| - 1))
  {
    assert forall k :: 0 <= k < |log| - 1 ==> Init(log)[k] == log[k];
    if SameStage(log, i, |log|) {
      assert !StartsStage(log[|log| - 1].event);
    }
  }

  lemma StartedSnoc(log: seq<Entry>, m: Method)
    requires log != []
    ensures StartedInStage(log, m) <==>
            !StartsStage(LastEvent(log)) && (LastEvent(log) == Started(m) || StartedInStage(Init(log), m))
  {
    var (init, n) := (Init(log), |log| - 1);
    if StartedInStage(log, m) {
      var i :| 0 <= i < |log| && log[i].event == Started(m) && SameStage(log, i, |log|);
      StageSnoc(log, i);
      assert i < n ==> init[i] == log[i];
    }
    if LastEvent(log) == Started(m) {
      StageSnoc(log, n);
    } else if !StartsStage(LastEvent(log)) && StartedInStage(init, m) {
      var i :| 0 <= i < |init| && init[i].event == Started(m) && SameStage(init, i, |init|);
      StageSnoc(log, i);
      assert init[i] == log[i];
    }
  }

  // The methods tried in a stage are those started in it.
  lemma {:induction false} TriedMeaning(c: Config, log: seq<Entry>, m: Method)
    requires Lawful(c, log)
    ensures m in Replay(log).tried <==> StartedInStage(log, m)
  {
    if log == [] {
    } else {
      TriedMeaning(c, Init(log), m);
      StartedSnoc(log, m);
    }
  }

  lemma {:induction false} LawfulPrefix(c: Config, log: seq<Entry>, n: nat)
    requires Lawful(c, log) && n <= |log|
    ensures Lawful(c, log[..n])
    ensures n < |log| ==> Allowed(c, Replay(log[..n]), log[n].event)
    ensures n < |log| ==> Replay(log[..n + 1]) == Advance(Replay(log[..n]), log[n].event)
    decreases |log|
  {
    if n == |log| {
      assert log[..n] == log;
    } else if n == |log| - 1 {
      assert log[..n + 1] == log;
    } else {
      LawfulPrefix(c, Init(log), n);
      assert Init(log)[..n] == log[..n] && Init(log)[..n + 1] == log[..n + 1];
    }
  }

  // At every entry of a run the machine's stage is the log's, its flags say which
  // methods were started in the stage and whether any was, its rounds are the
  // challenges shown, and it waits for what is unanswered in the log.
  lemma MachineFollowsLog(c: Config, log: seq<Entry>, i: nat)
    requires Agreeing(c, log) && i < |log|
    ensures var (s, p) := (log[i].state, Replay(if log[i].event.Refusal? then log[..i] else log[..i + 1]));
            && s.stages == p.stage
            && (s.anyMethodAttempted <==> s.publicKeyAttempted || s.interactiveAttempted || s.passwordAttempted)
            && (s.publicKeyAttempted <==> PublicKey in p.tried)
            && (s.interactiveAttempted <==> KeyboardInteractive in p.tried)
            && (s.passwordAttempted <==> Password in p.tried)
            && s.interactiveRounds == p.rounds && s.nextRoundId == p.rounds + 1
            && s.pendingChallenge == p.open && (s.waitingFor.Some? <==> p.asked.Some?)
  {
    AgreesAt(c, log, i);
    var p := Replay(if log[i].event.Refusal? then log[..i] else log[..i + 1]);
    assert Agrees(c, log[i].state, p);
    AnyTried(p.tried);
  }

  lemma {:induction false} AgreesAt(c: Config, log: seq<Entry>, i: nat)
    requires Agreeing(c, log) && i < |log|
    ensures Agrees(c, log[i].state, Replay(if log[i].event.Refusal? then log[..i] else log[..i + 1]))
  {
    if i == |log| - 1 {
      assert log[..i + 1] == log;
    } else {
      AgreesAt(c, Init(log), i);
      assert Init(log)[..i] == log[..i] && Init(log)[..i + 1] == log[..i + 1];
    }
  }

  lemma AnyTried(tried: set<Method>)
    ensures tried != {} <==> PublicKey in tried || KeyboardInteractive in tried || Password in tried
  {
    if tried != {} {
      var m :| m in tried;
      assert m == PublicKey || m == KeyboardInteractive || m == Password;
    }
  }

  // No method is started twice in a stage.
  lemma NoMethodTwice(c: Config, log: seq<Entry>, i: nat, j: nat)
    requires Lawful(c, log) && i < j < |log|
    requires log[i].event.Started? && log[j].event == log[i].event
    ensures !SameStage(log, i, j)
  {
    if SameStage(log, i, j) {
      StartedBefore(log, i, j);
    }
    var before, m := log[..j], log[i].event.m;
    LawfulPrefix(c, log, j);
    TriedMeaning(c, before, m);
    AskedIsUntried(c, before);
  }

  lemma StartedBefore(log: seq<Entry>, i: nat, j: nat)
    requires i < j <= |log| && log[i].event.Started? && SameStage(log, i, j)
    ensures StartedInStage(log[..j], log[i].event.m)
  {
    assert forall k :: 0 <= k < j ==> log[..j][k] == log[k];
    assert SameStage(log[..j], i, |log[..j]|);
  }

  lemma AskedIsUntried(c: Config, log: seq<Entry>)
    requires Lawful(c, log)
    ensures Replay(log).asked.Some? ==> Replay(log).asked.value !in Replay(log).tried
  {
    Reachable(c, log);
  }

  lemma ChosenBehindRefusal(c: Config, log: seq<Entry>, j: nat)
    requires Lawful(c, log) && j < |log| && (log[j].event.Started? || log[j].event.Asked?)
    ensures var (m, e) := (log[j].event.m, log[j].event);
            if e.Started? && NeedsCredential(c, m) then 1 <= j && log[j - 1].event == Asked(m)
            else
              && (e.Asked? <==> NeedsCredential(c, m))
              && 1 <= j && log[j - 1].event.Refusal?
              && Best(c, Replay(log[..j]).tried, log[j - 1].event.remaining) == Some(m)
  {
    LawfulPrefix(c, log, j);
    Reachable(c, log[..j]);
    if j == 0 {
    } else {
      LawfulPrefix(c, log, j - 1);
      Reachable(c, log[..j - 1]);
    }
  }

  // The server offers the method, it was not started in the present stage, and
  // there is a key if it needs one.
  ghost predicate Usable(c: Config, log: seq<Entry>, remaining: seq<Method>, m: Method) {
    m in remaining && !StartedInStage(log, m) && (m == PublicKey ==> c.hasPrivateKey)
  }

  // The key goes first, then keyboard-interactive, then the password.
  lemma BestIsFirstUsable(c: Config, log: seq<Entry>, remaining: seq<Method>)
    requires Lawful(c, log)
    ensures var (best, key, interactive, password) :=
              (Best(c, Replay(log).tried, remaining), Usable(c, log, remaining, PublicKey),
               Usable(c, log, remaining, KeyboardInteractive), Usable(c, log, remaining, Password));
            && (best == Some(PublicKey) <==> key)
            && (best == Some(KeyboardInteractive) <==> !key && interactive)
            && (best == Some(Password) <==> !key && !interactive && password)
            && (best == None <==> !key && !interactive && !password)
  {
    TriedMeaning(c, log, PublicKey);
    TriedMeaning(c, log, KeyboardInteractive);
    TriedMeaning(c, log, Password);
  }

  // Every method is chosen right behind a refusal. It is usable, and none that
  // goes before it is; the user is asked for a credential exactly for a password
  // and for a key under a passphrase, and the method is then started next.
  lemma ChosenIsBest(c: Config, log: seq<Entry>, j: nat)
    requires Lawful(c, log) && j < |log| && (log[j].event.Started? || log[j].event.Asked?)
    ensures var (m, e) := (log[j].event.m, log[j].event);
            var asks := m == Password || (m == PublicKey && c.requiresPassphrase);
            && j >= 1
            && if e.Started? && asks then log[j - 1].event == Asked(m)
               else
                 && log[j - 1].event.Refusal? && (e.Asked? <==> asks)
                 && var remaining := log[j - 1].event.remaining;
                 && Usable(c, log[..j], remaining, m)
                 && (m != PublicKey ==> !Usable(c, log[..j], remaining, PublicKey))
                 && (m == Password ==> !Usable(c, log[..j], remaining, KeyboardInteractive))
  {
    LawfulPrefix(c, log, j);
    ChosenBehindRefusal(c, log, j);
    if log[j - 1].event.Refusal? {
      BestIsFirstUsable(c, log[..j], log[j - 1].event.remaining);
    }
  }

  // ----- challenges and responses -----

  function PresentedIds(log: seq<Entry>): seq<nat> {
    if log == [] then []
    else PresentedIds(Init(log)) + (if LastEvent(log).Presented? then [LastEvent(log).challenge.roundId] else [])
  }

  // Challenges are numbered 1, 2, 3, ... through the whole run, across stages.
  lemma {:induction false} RoundsAreNumbered(c: Config, log: seq<Entry>)
    requires Lawful(c, log)
    ensures |PresentedIds(log)| == Replay(log).rounds <= MAX_INTERACTIVE_ROUNDS
    ensures forall k :: 0 <= k < |PresentedIds(log)| ==> PresentedIds(log)[k] == k + 1
  {
    if log == [] {
    } else {
      RoundsAreNumbered(c, Init(log));
    }
  }

  // No challenge shown and no response sent between two places.
  predicate Quiet(log: seq<Entry>, i: nat, j: nat) {
    forall k :: i <= k < j && k < |log| ==> !log[k].event.Presented? && !log[k].event.Responded?
  }

  // The unanswered challenge is the latest one.
  lemma {:induction false} OpenMeaning(c: Config, log: seq<Entry>) returns (i: nat)
    requires Lawful(c, log) && Replay(log).open.Some?
    ensures i < |log| && log[i].event.Presented?
    ensures Replay(log).open == Some((log[i].event.challenge.roundId, |log[i].event.challenge.prompts|))
    ensures Quiet(log, i + 1, |log|)
  {
    i := |log| - 1;
    if log[i].event.Presented? {
    } else {
      i := OpenMeaning(c, Init(log));
      assert forall k :: 0 <= k < |log| - 1 ==> Init(log)[k] == log[k];
      LawfulPrefix(c, log, |log| - 1);
    }
  }

  // Each response sent to the server answers the latest challenge, with its id
  // and one answer to each of its prompts, and nothing else was answered since.
  lemma ResponseAnswersLatest(c: Config, log: seq<Entry>, j: nat) returns (i: nat)
    requires Lawful(c, log) && j < |log| && log[j].event.Responded?
    ensures i < j && log[i].event.Presented?
    ensures log[i].event.challenge.roundId == log[j].event.roundId
    ensures |log[i].event.challenge.prompts| == |log[j].event.responses|
    ensures Quiet(log, i + 1, j)
  {
    LawfulPrefix(c, log, j);
    i := OpenMeaning(c, log[..j]);
    assert forall k :: 0 <= k < j ==> log[..j][k] == log[k];
  }

  lemma {:induction false} AnsweredBefore(c: Config, log: seq<Entry>, i: nat)
    requires Lawful(c, log) && i < |log| && log[i].event.Responded?
    ensures log[i].event.roundId <= Replay(log).rounds
    ensures Replay(log).open.Some? ==> log[i].event.roundId < Replay(log).open.value.0
  {
    Reachable(c, Init(log));
    if i == |log| - 1 {
    } else {
      AnsweredBefore(c, Init(log), i);
      Reachable(c, log);
    }
  }

  // Each challenge is answered at most once: later responses carry larger ids.
  lemma AnsweredOnce(c: Config, log: seq<Entry>, i: nat, j: nat)
    requires Lawful(c, log) && i < j < |log|
    requires log[i].event.Responded? && log[j].event.Responded?
    ensures log[i].event.roundId < log[j].event.roundId
  {
    LawfulPrefix(c, log, j);
    AnsweredBefore(c, log[..j], i);
  }
}
