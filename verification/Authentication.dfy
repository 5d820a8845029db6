// The authentication state machine: which method is tried next, what the user
// is asked for, and which answers belong to which challenge.
module Authentication {
  import opened Options
  import opened Characters

  const MAX_INTERACTIVE_ROUNDS: nat := 8
  const MAX_AUTH_STAGES: nat := 8
  const MAX_PROMPTS_PER_ROUND: nat := 16
  const MAX_SERVER_FIELD_BYTES: nat := 4096
  const MAX_PROMPT_BYTES_PER_ROUND: nat := 16 * 1024
  const MAX_RESPONSE_BYTES: nat := 4096
  const MAX_RESPONSE_BYTES_PER_ROUND: nat := 16 * 1024
  const U32_MAX: nat := 0xFFFF_FFFF

  datatype Method = PublicKey | Password | KeyboardInteractive
  datatype Prompt = Prompt(text: string, echo: bool)
  datatype Challenge = Challenge(roundId: nat, name: string, instructions: string, prompts: seq<Prompt>)
  datatype WaitingFor = PrivateKeyPassphrase | PasswordEntry

  datatype Failure =
    | NoSupportedMethod
    | Rejected
    | UnexpectedCredential
    | UnexpectedChallenge
    | StaleChallenge
    | ResponseCountMismatch
    | ProtocolLimitExceeded

  datatype Action =
    | AttemptPublicKey
    | RequestPrivateKeyPassphrase
    | RequestPassword
    | StartKeyboardInteractive
    | PresentChallenge(challenge: Challenge)
    | Fail(failure: Failure)

  datatype Verdict = Accepted | Refused(failure: Failure)

  // The fields of the machine as one value.
  datatype State = State(
    hasPrivateKey: bool,
    requiresPassphrase: bool,
    publicKeyAttempted: bool,
    passwordAttempted: bool,
    interactiveAttempted: bool,
    anyMethodAttempted: bool,
    waitingFor: Option<WaitingFor>,
    pendingChallenge: Option<(nat, nat)>,
    nextRoundId: nat,
    interactiveRounds: nat,
    stages: nat)

  function Initial(hasPrivateKey: bool, requiresPassphrase: bool): State {
    State(hasPrivateKey, requiresPassphrase, false, false, false, false, None, None, 1, 0, 1)
  }

  // ----- text from the server -----

  predicate IsDisplayable(c: char) {
    c == '\n' || c == '\r' || c == '\t' || !IsControl(c)
  }

  function Sanitize(text: string): string {
    if text == "" then ""
    else (if IsDisplayable(text[0]) then [text[0]] else "") + Sanitize(text[1..])
  }

  function SanitizePrompts(prompts: seq<Prompt>): seq<Prompt> {
    if prompts == [] then []
    else [Prompt(Sanitize(prompts[0].text), prompts[0].echo)] + SanitizePrompts(prompts[1..])
  }

  // Bytes of a character in UTF-8, and of a text.
  function CharacterBytes(c: char): nat {
    if c < '\U{80}' then 1 else if c < '\U{800}' then 2 else if c < '\U{10000}' then 3 else 4
  }

  function Bytes(text: string): nat {
    if text == "" then 0 else CharacterBytes(text[0]) + Bytes(text[1..])
  }

  function TotalBytes(texts: seq<string>): nat {
    if texts == [] then 0 else Bytes(texts[0]) + TotalBytes(texts[1..])
  }

  function Texts(prompts: seq<Prompt>): seq<string> {
    if prompts == [] then [] else [prompts[0].text] + Texts(prompts[1..])
  }

  predicate TextsWithin(texts: seq<string>, each: nat, total: nat) {
    (forall i :: 0 <= i < |texts| ==> Bytes(texts[i]) <= each) && TotalBytes(texts) <= total
  }

  // A challenge within all limits on its size.
  predicate ChallengeWithinLimits(name: string, instructions: string, prompts: seq<Prompt>) {
    && |prompts| <= MAX_PROMPTS_PER_ROUND
    && Bytes(name) <= MAX_SERVER_FIELD_BYTES
    && Bytes(instructions) <= MAX_SERVER_FIELD_BYTES
    && TextsWithin(Texts(prompts), MAX_SERVER_FIELD_BYTES, MAX_PROMPT_BYTES_PER_ROUND)
  }

  predicate ResponsesWithinLimits(responses: seq<string>) {
    TextsWithin(responses, MAX_RESPONSE_BYTES, MAX_RESPONSE_BYTES_PER_ROUND)
  }

  // What is shown to the user holds no control character but line feed,
  // carriage return and tab, and sanitizing it again changes nothing.
  lemma {:induction false} SanitizedText(text: string)
    ensures forall i :: 0 <= i < |Sanitize(text)| ==> IsDisplayable(Sanitize(text)[i])
    ensures Sanitize(Sanitize(text)) == Sanitize(text)
  {
    if text == "" {
    } else {
      SanitizedText(text[1..]);
      if IsDisplayable(text[0]) {
        assert ([text[0]] + Sanitize(text[1..]))[1..] == Sanitize(text[1..]);
      } else {
        assert "" + Sanitize(text[1..]) == Sanitize(text[1..]);
      }
    }
  }

  lemma {:induction false} SanitizedFits(text: string)
    ensures Bytes(Sanitize(text)) <= Bytes(text)
  {
    if text == "" {
    } else {
      SanitizedFits(text[1..]);
      if IsDisplayable(text[0]) {
        assert ([text[0]] + Sanitize(text[1..]))[1..] == Sanitize(text[1..]);
      } else {
        assert "" + Sanitize(text[1..]) == Sanitize(text[1..]);
      }
    }
  }

  // Prompts keep their number, order and echo, and stay within the limits.
  lemma {:induction false} SanitizedPrompts(prompts: seq<Prompt>)
    ensures |SanitizePrompts(prompts)| == |prompts|
    ensures forall i :: 0 <= i < |prompts| ==>
              SanitizePrompts(prompts)[i] == Prompt(Sanitize(prompts[i].text), prompts[i].echo)
    ensures TotalBytes(Texts(SanitizePrompts(prompts))) <= TotalBytes(Texts(prompts))
  {
    if prompts == [] {
    } else {
      SanitizedPrompts(prompts[1..]);
      SanitizedFits(prompts[0].text);
      assert SanitizePrompts(prompts)[1..] == SanitizePrompts(prompts[1..]);
      assert Texts(SanitizePrompts(prompts))[1..] == Texts(SanitizePrompts(prompts[1..]));
      assert Texts(prompts)[1..] == Texts(prompts[1..]);
    }
  }

  // ----- the transitions -----

  // A new stage after a partial success (section 5.1 of RFC 4252).
  function NextStage(s: State): State {
    s.(stages := s.stages + 1,
       publicKeyAttempted := false, passwordAttempted := false, interactiveAttempted := false,
       anyMethodAttempted := false)
  }

  function Select(s: State, remaining: seq<Method>, partialSuccess: bool): (State, Action) {
    if s.waitingFor.Some? || s.pendingChallenge.Some? then (s, Fail(UnexpectedCredential))
    else if partialSuccess && s.stages >= MAX_AUTH_STAGES then (s, Fail(ProtocolLimitExceeded))
    else
      var t := if partialSuccess then NextStage(s) else s;
      if t.hasPrivateKey && !t.publicKeyAttempted && PublicKey in remaining then
        if t.requiresPassphrase then
          (t.(waitingFor := Some(PrivateKeyPassphrase)), RequestPrivateKeyPassphrase)
        else
          (t.(publicKeyAttempted := true, anyMethodAttempted := true), AttemptPublicKey)
      else if !t.interactiveAttempted && KeyboardInteractive in remaining then
        (t.(interactiveAttempted := true, anyMethodAttempted := true), StartKeyboardInteractive)
      else if !t.passwordAttempted && Password in remaining then
        (t.(waitingFor := Some(PasswordEntry)), RequestPassword)
      else if partialSuccess || t.anyMethodAttempted then (t, Fail(Rejected))
      else (t, Fail(NoSupportedMethod))
  }

  function SubmitPassphrase(s: State): (State, Action) {
    if s.waitingFor != Some(PrivateKeyPassphrase) then (s, Fail(UnexpectedCredential))
    else (s.(waitingFor := None, publicKeyAttempted := true, anyMethodAttempted := true), AttemptPublicKey)
  }

  function SubmitPassword(s: State): (State, Verdict) {
    if s.waitingFor != Some(PasswordEntry) then (s, Refused(UnexpectedCredential))
    else (s.(waitingFor := None, passwordAttempted := true, anyMethodAttempted := true), Accepted)
  }

  function Present(s: State, name: string, instructions: string, prompts: seq<Prompt>): (State, Action) {
    if !s.interactiveAttempted || s.pendingChallenge.Some? then (s, Fail(UnexpectedChallenge))
    else if s.interactiveRounds >= MAX_INTERACTIVE_ROUNDS || !ChallengeWithinLimits(name, instructions, prompts)
    then (s, Fail(ProtocolLimitExceeded))
    else if s.nextRoundId >= U32_MAX then (s, Fail(ProtocolLimitExceeded))
    else
      (s.(nextRoundId := s.nextRoundId + 1,
          interactiveRounds := s.interactiveRounds + 1,
          pendingChallenge := Some((s.nextRoundId, |prompts|))),
       PresentChallenge(Challenge(s.nextRoundId, Sanitize(name), Sanitize(instructions), SanitizePrompts(prompts))))
  }

  function Validate(s: State, roundId: nat, responses: seq<string>): (State, Verdict) {
    match s.pendingChallenge
    case None => (s, Refused(UnexpectedChallenge))
    case Some((pendingRoundId, promptCount)) =>
      if roundId != pendingRoundId then (s, Refused(StaleChallenge))
      else if |responses| != promptCount then (s, Refused(ResponseCountMismatch))
      else if !ResponsesWithinLimits(responses) then (s, Refused(ProtocolLimitExceeded))
      else (s.(pendingChallenge := None), Accepted)
  }

  // ----- the machine -----

  class AuthStateMachine {
    const hasPrivateKey: bool
    const privateKeyRequiresPassphrase: bool
    var publicKeyAttempted: bool
    var passwordAttempted: bool
    var keyboardInteractiveAttempted: bool
    var anyMethodAttempted: bool
    var waitingFor: Option<WaitingFor>
    var pendingChallenge: Option<(nat, nat)>
    var nextRoundId: nat
    var interactiveRounds: nat
    var authStages: nat

    function Value(): State
      reads this
    {
      State(hasPrivateKey, privateKeyRequiresPassphrase, publicKeyAttempted, passwordAttempted,
            keyboardInteractiveAttempted, anyMethodAttempted, waitingFor, pendingChallenge, nextRoundId,
            interactiveRounds, authStages)
    }

    constructor (hasPrivateKey: bool, privateKeyRequiresPassphrase: bool)
      ensures Value() == Initial(hasPrivateKey, privateKeyRequiresPassphrase)
    {
      this.hasPrivateKey := hasPrivateKey;
      this.privateKeyRequiresPassphrase := privateKeyRequiresPassphrase;
      publicKeyAttempted := false;
      passwordAttempted := false;
      keyboardInteractiveAttempted := false;
      anyMethodAttempted := false;
      waitingFor := None;
      pendingChallenge := None;
      nextRoundId := 1;
      interactiveRounds := 0;
      authStages := 1;
    }

    method SelectNextMethod(remaining: seq<Method>, partialSuccess: bool) returns (action: Action)
      modifies this
      ensures (Value(), action) == Select(old(Value()), remaining, partialSuccess)
    {
      if waitingFor.Some? || pendingChallenge.Some? {
        return Fail(UnexpectedCredential);
      }
      if partialSuccess {
        if authStages >= MAX_AUTH_STAGES {
          return Fail(ProtocolLimitExceeded);
        }
        authStages := authStages + 1;
        publicKeyAttempted := false;
        passwordAttempted := false;
        keyboardInteractiveAttempted := false;
        anyMethodAttempted := false;
      }
      waitingFor := None;
      pendingChallenge := None;

      if hasPrivateKey && !publicKeyAttempted && PublicKey in remaining {
        if privateKeyRequiresPassphrase {
          waitingFor := Some(PrivateKeyPassphrase);
          return RequestPrivateKeyPassphrase;
        }
        publicKeyAttempted := true;
        anyMethodAttempted := true;
        return AttemptPublicKey;
      }
      if !keyboardInteractiveAttempted && KeyboardInteractive in remaining {
        keyboardInteractiveAttempted := true;
        anyMethodAttempted := true;
        return StartKeyboardInteractive;
      }
      if !passwordAttempted && Password in remaining {
        waitingFor := Some(PasswordEntry);
        return RequestPassword;
      }
      if partialSuccess || anyMethodAttempted {
        return Fail(Rejected);
      }
      return Fail(NoSupportedMethod);
    }

    method SubmitPrivateKeyPassphrase() returns (action: Action)
      modifies this
      ensures (Value(), action) == SubmitPassphrase(old(Value()))
    {
      if waitingFor != Some(PrivateKeyPassphrase) {
        return Fail(UnexpectedCredential);
      }
      waitingFor := None;
      publicKeyAttempted := true;
      anyMethodAttempted := true;
      return AttemptPublicKey;
    }

    method SubmitPasswordEntry() returns (verdict: Verdict)
      modifies this
      ensures (Value(), verdict) == SubmitPassword(old(Value()))
    {
      if waitingFor != Some(PasswordEntry) {
        return Refused(UnexpectedCredential);
      }
      waitingFor := None;
      passwordAttempted := true;
      anyMethodAttempted := true;
      return Accepted;
    }

    method PresentChallengeToUser(name: string, instructions: string, prompts: seq<Prompt>) returns (action: Action)
      modifies this
      ensures (Value(), action) == Present(old(Value()), name, instructions, prompts)
    {
      if !keyboardInteractiveAttempted || pendingChallenge.Some? {
        return Fail(UnexpectedChallenge);
      }
      if interactiveRounds >= MAX_INTERACTIVE_ROUNDS || !ChallengeWithinLimits(name, instructions, prompts) {
        return Fail(ProtocolLimitExceeded);
      }
      var roundId := nextRoundId;
      if roundId >= U32_MAX {
        return Fail(ProtocolLimitExceeded);
      }
      nextRoundId := roundId + 1;
      interactiveRounds := interactiveRounds + 1;
      pendingChallenge := Some((roundId, |prompts|));
      return PresentChallenge(Challenge(roundId, Sanitize(name), Sanitize(instructions), SanitizePrompts(prompts)));
    }

    method ValidateResponses(roundId: nat, responses: seq<string>) returns (verdict: Verdict)
      modifies this
      ensures (Value(), verdict) == Validate(old(Value()), roundId, responses)
    {
      match pendingChallenge
      case None => return Refused(UnexpectedChallenge);
      case Some((pendingRoundId, promptCount)) =>
        if roundId != pendingRoundId {
          return Refused(StaleChallenge);
        }
        if |responses| != promptCount {
          return Refused(ResponseCountMismatch);
        }
        if !ResponsesWithinLimits(responses) {
          return Refused(ProtocolLimitExceeded);
        }
        pendingChallenge := None;
        return Accepted;
    }
  }
}
