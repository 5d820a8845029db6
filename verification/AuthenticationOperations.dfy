// What single operations of the authentication machine do, written out: which
// characters of the server's text are shown, how sizes are measured, and where
// the limits lie.
module AuthenticationOperations {
  import opened Options
  import opened Sequences
  import opened Authentication
  import Utf8

  // ----- what is shown -----

  lemma SanitizeHead(c: char, rest: string)
    ensures Sanitize([c] + rest) ==
            (if c == '\n' || c == '\r' || c == '\t' || ' ' <= c < '\U{7F}' || '\U{9F}' < c then [c] else "")
            + Sanitize(rest)
  {
    assert ([c] + rest)[1..] == rest;
  }

  // Every character is judged on its own.
  lemma {:induction false} SanitizeAppend(a: string, b: string)
    ensures Sanitize(a + b) == Sanitize(a) + Sanitize(b)
  {
    if a == "" {
      assert a + b == b;
    } else {
      var kept := if IsDisplayable(a[0]) then [a[0]] else "";
      SanitizeAppend(a[1..], b);
      assert (a + b)[1..] == a[1..] + b;
      Associative(kept, Sanitize(a[1..]), Sanitize(b));
    }
  }

  // A text of line feeds, carriage returns, tabs and characters that are not
  // control characters is shown as it is.
  lemma {:induction false} ShownInFull(text: string)
    requires forall i :: 0 <= i < |text| ==>
               text[i] == '\n' || text[i] == '\r' || text[i] == '\t' || ' ' <= text[i] < '\U{7F}' || '\U{9F}' < text[i]
    ensures Sanitize(text) == text
  {
    if text == "" {
    } else {
      ShownInFull(text[1..]);
      assert text[0] == text[..1][0];
      Cut(text, 1, |text|);
    }
  }

  // Of a text of other control characters nothing is shown.
  lemma {:induction false} NothingShown(text: string)
    requires forall i :: 0 <= i < |text| ==>
               && text[i] != '\n' && text[i] != '\r' && text[i] != '\t'
               && (text[i] < ' ' || '\U{7F}' <= text[i] <= '\U{9F}')
    ensures Sanitize(text) == ""
  {
    if text == "" {
    } else {
      NothingShown(text[1..]);
    }
  }

  // A prompt that hides an escape sequence, as it is shown.
  lemma EscapeIsRemoved()
    ensures Sanitize("Pass" + "\U{1B}" + "word:\t") == "Pass" + "" + "word:\t"
  {
    ShownInFull("Pass");
    NothingShown("\U{1B}");
    ShownInFull("word:\t");
    SanitizeAppend("Pass", "\U{1B}");
    SanitizeAppend("Pass" + "\U{1B}", "word:\t");
  }

  // ----- how sizes are measured -----

  function Scalars(text: string): seq<Utf8.Scalar> {
    if text == "" then [] else [text[0] as int as Utf8.Scalar] + Scalars(text[1..])
  }

  // Sizes are those of the text in UTF-8.
  lemma {:induction false} BytesAreUtf8(text: string)
    ensures Bytes(text) == |Utf8.Encode(Scalars(text))|
  {
    if text == "" {
    } else {
      BytesAreUtf8(text[1..]);
      assert Scalars(text)[1..] == Scalars(text[1..]);
    }
  }

  // The total is the size of all texts together.
  lemma {:induction false} TotalIsSum(texts: seq<string>)
    ensures TotalBytes(texts) == Bytes(Flatten(texts))
  {
    if texts == [] {
    } else {
      TotalIsSum(texts[1..]);
      BytesAppend(texts[0], Flatten(texts[1..]));
    }
  }

  lemma {:induction false} BytesAppend(a: string, b: string)
    ensures Bytes(a + b) == Bytes(a) + Bytes(b)
  {
    if a == "" {
      assert a + b == b;
    } else {
      BytesAppend(a[1..], b);
      assert (a + b)[1..] == a[1..] + b;
    }
  }

  lemma {:induction false} TextsArePrompts(prompts: seq<Prompt>)
    ensures |Texts(prompts)| == |prompts| && forall i :: 0 <= i < |prompts| ==> Texts(prompts)[i] == prompts[i].text
  {
    if prompts == [] {
    } else {
      TextsArePrompts(prompts[1..]);
    }
  }

  // ----- challenges and responses -----

  // Texts of at most 4096 bytes each and 16384 together.
  ghost predicate Small(texts: seq<string>) {
    (forall i :: 0 <= i < |texts| ==> Bytes(texts[i]) <= 4096) && Bytes(Flatten(texts)) <= 16384
  }

  // A challenge is shown while keyboard-interactive is under way, none is open,
  // fewer than eight were shown, there are at most 16 prompts, and its texts are
  // small; it then is the open one. Otherwise nothing changes, and only a
  // challenge out of turn is called unexpected.
  lemma PresentedExactly(s: State, name: string, instructions: string, prompts: seq<Prompt>)
    ensures var (t, action) := Present(s, name, instructions, prompts);
            && (action.PresentChallenge? <==>
                  && s.interactiveAttempted && s.pendingChallenge == None
                  && s.interactiveRounds < 8 && s.nextRoundId < 0xFFFF_FFFF
                  && |prompts| <= 16 && Bytes(name) <= 4096 && Bytes(instructions) <= 4096
                  && Small(Texts(prompts)))
            && (action == Fail(UnexpectedChallenge) <==> !s.interactiveAttempted || s.pendingChallenge != None)
            && (action.PresentChallenge? || action == Fail(UnexpectedChallenge) ||
                action == Fail(ProtocolLimitExceeded))
            && (!action.PresentChallenge? ==> t == s)
            && (action.PresentChallenge? ==>
                  && action.challenge.roundId == s.nextRoundId
                  && action.challenge.name == Sanitize(name) && action.challenge.instructions == Sanitize(instructions)
                  && |action.challenge.prompts| == |prompts|
                  && t == s.(pendingChallenge := Some((s.nextRoundId, |prompts|)),
                             nextRoundId := s.nextRoundId + 1, interactiveRounds := s.interactiveRounds + 1))
  {
    TotalIsSum(Texts(prompts));
    SanitizedPrompts(prompts);
  }

  // Responses are accepted if they name the open challenge, are as many as its
  // prompts, and are small; this closes it. The first of these that fails is the
  // reason of a refusal, which changes nothing.
  lemma ValidatedExactly(s: State, roundId: nat, responses: seq<string>)
    ensures var ((t, verdict), open) := (Validate(s, roundId, responses), s.pendingChallenge);
            && (verdict == Accepted <==> open == Some((roundId, |responses|)) && Small(responses))
            && (verdict == Refused(UnexpectedChallenge) <==> open == None)
            && (verdict == Refused(StaleChallenge) <==> open.Some? && open.value.0 != roundId)
            && (verdict == Refused(ResponseCountMismatch) <==>
                  open.Some? && open.value.0 == roundId && open.value.1 != |responses|)
            && (verdict == Refused(ProtocolLimitExceeded) <==>
                  open == Some((roundId, |responses|)) && !Small(responses))
            && t == (if verdict == Accepted then s.(pendingChallenge := None) else s)
  {
    TotalIsSum(responses);
  }
}
