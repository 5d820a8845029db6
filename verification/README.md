# Verified models of the LeanTTY core

This project models the parts of LeanTTY where bytes, files, credentials and
time have to be handled exactly, and proves what those parts promise. It covers
the streaming UTF-8 decoder, the editor for `known_hosts`, the authentication
state machine with its driver, the delivery of terminal output, the pausable
connect deadline, wheel scrolling, clipboard writes with OSC 52, the test
fixture's encoders and matchers, and the key-file transactions.

Code that works step by step is modelled as methods and classes with loops.
Each of those is tied by its contract to a function of its inputs or of the old
state, and the results are proved about that function. Whatever the code cannot
control is a parameter: the server, the user, callbacks, the clock, the file
system and the cryptography are arbitrary, so a result holds whatever they do.

| file | what it models |
|---|---|
| `Sequences.dfy`, `Decimals.dfy` | shared vocabulary |
| `Utf8.dfy` | well-formed UTF-8 (Table 3-7 of the Unicode Standard, section 3.9), encoding, and the scan that finds characters and maximal subparts |
| `Utf8StreamDecoder.dfy` | the decoder with its pending bytes |
| `KnownHostsText.dfy`, `KnownHosts.dfy` | lines, fields and patterns; query and removal |
| `KnownHostsTheorems.dfy`, `KnownHostsSurvival.dfy` | what a removal does to the target's lines and to everybody else's |
| `KnownHostsOperations.dfy` | query and removal on entries written out: which spelling belongs to which port, hashed, shared, marked and commented entries, reports |
| `Authentication.dfy` | the state machine |
| `AuthenticationOperations.dfy` | its single operations written out: what is shown of the server's text, sizes in UTF-8, the limits |
| `AuthenticationLog.dfy` | the log of a run and the rules it obeys, stated without the machine |
| `AuthenticationDriver.dfy`, `AuthenticationTheorems.dfy` | the driver against an arbitrary server, user and callback; what every run keeps |
| `OutputDelivery.dfy` | the output loop, its buffer, retries and metrics |
| `OutputProgress.dfy` | what each event does to the loop: when output is offered, when the channel is read, when the loop ends |
| `ConnectDeadline.dfy` | the deadline that stands still while the user is asked |
| `WheelScrolling.dfy` | wheel events, backlog and frames, over ideal reals |
| `WheelOperations.dfy` | single events and frames in lines, pixels and milliseconds |
| `Base64.dfy`, `Osc52.dfy` | the fixture's encoder and the terminal's clipboard policy |
| `PerfStream.dfy`, `PasteMatcher.dfy` | the fixture's benchmark stream and paste check |
| `PerfStreamOperations.dfy` | the benchmark's numbers, commands and lines on the wire |
| `FileSystem.dfy`, `KeyFiles.dfy` | files that may fail at any operation; passphrase change and export |
| `KeyFilesOperations.dfy` | which passphrase opens a key file, temporary names, names to export to |

## What does not always hold

Some promises hold only under a condition. The models keep the code as it is,
and the condition is proved to be exact.

- A removal from `known_hosts` is complete, and a second one changes nothing,
  exactly if no edited line makes the target reappear. It can reappear when the
  patterns left in a shared field join to nothing, or start with `@` on an
  unmarked line (`EmptyPatternExample`, `MarkerExample`); it cannot when
  every retained text is not empty and does not start with `@` (`SafeRemoval`).
- Other endpoints survive a removal exactly if their lines still match after
  the edit. They can be lost when the retained text is empty or reads as a marker
  or a comment (`CommentExample`), and not otherwise (`SafeSurvival`).
- Decoding and encoding again gives back the bytes exactly if they are
  well-formed (`LoneByteIsLost` is a failing input).
- A clipboard text arrives unchanged exactly if it fits into 1 MiB and does not
  begin with a byte order mark, which the text decoder drops (`MarkIsDropped`).
- The benchmark's announced count is what the terminal counts exactly if the
  case id contains no `X`. The command accepts case ids that do
  (`CaseIdIsCounted`).
- Seven frames empty every wheel backlog for whole numbers of rows; for a
  fractional number of rows they do so exactly if the whole lines of eight
  screens fit into seven full frames, which fails for 7.19 rows.
- A paste followed by more input matches or fails depending on where the input
  is cut into packets: it matches exactly if a packet ends where the payload does
  (`CuttingDecides`).
- A failed passphrase change leaves every file as it was, provided its deletion
  succeeds, exactly unless it gets as far as a temporary name and picks one that
  belongs to an existing file which went unnoticed: creating the temporary file
  then fails, and the cleanup deletes that leftover. If the deletion fails, all
  is as before exactly if no temporary file had been created.

## Model

| member | source | states |
|---|---|---|
| `Utf8.ValueEncode` | leantty_ssh/leantty-ssh-core/src/utf8_decoder.rs:13-14 | the bytes of every scalar value form a well-formed character whose value is that scalar |
| `Utf8.EncodeValue` | leantty_ssh/leantty-ssh-core/src/utf8_decoder.rs:13-14 | every row of Table 3-7 is the encoding of one scalar value, so decoding and encoding are inverse |
| `Utf8.ScanMeaning` | leantty_ssh/leantty-ssh-core/src/utf8_decoder.rs:18-33 | the byte-by-byte scan finds a character, the longest ill-formed beginning, or an unfinished character, each justified by the table |
| `Utf8.PrefixValid` | leantty_ssh/leantty-ssh-core/src/utf8_decoder.rs:18-28 | the error reported by the validity check: the prefix before it is valid and the error length is the maximal subpart there, or none if the input ended too early |
| `Utf8.FromUtf8Meaning` | leantty_ssh/leantty-ssh-core/src/utf8_decoder.rs:13-18 | the validity check accepts exactly the encodings of scalar values, and the accepted text encodes to the input |
| `Utf8.EncodeIsValid` | leantty_ssh/leantty-ssh-core/src/utf8_decoder.rs:13-16 | every encoded text is accepted and decodes to itself |
| `Utf8.EncodeExamples` | leantty_ssh/leantty-ssh-core/src/utf8_decoder.rs:13-14 | the examples of section 7 of RFC 3629 and the first and last scalar values of each length encode to the bytes written there |
| `StreamDecoder.Utf8StreamDecoder.Push` | leantty_ssh/leantty-ssh-core/src/utf8_decoder.rs:7-43 | output and remaining bytes are those of decoding the pending bytes followed by the data; what remains is nothing or a proper beginning of a character |
| `StreamDecoder.Utf8StreamDecoder.Finish` | leantty_ssh/leantty-ssh-core/src/utf8_decoder.rs:45-52 | what is pending is decoded with replacement and nothing stays: nothing pending gives nothing, and anything pending gives exactly one U+FFFD |
| `StreamDecoder.DecodeSome` | leantty_ssh/leantty-ssh-core/src/utf8_decoder.rs:13-36 | one pass of the loop strictly advances or waits, and leaves what the whole decoding will give unchanged |
| `StreamDecoder.Decode` | leantty_ssh/leantty-ssh-core/src/utf8_decoder.rs:12-37 | the loop over the validity check emits exactly what the character-by-character scan emits and stops at the first byte of an unfinished character |
| `StreamDecoder.KeptWaits` | leantty_ssh/leantty-ssh-core/src/utf8_decoder.rs:33-41 | kept bytes are empty or at most three bytes that some byte could continue, emit nothing by themselves and are kept again |
| `StreamDecoder.Resume` | leantty_ssh/leantty-ssh-core/src/utf8_decoder.rs:7-43 | decoding a stream in two pushes emits and keeps what one push of the whole does |
| `StreamDecoder.LossySplit` | leantty_ssh/leantty-ssh-core/src/utf8_decoder.rs:45-52 | a one-shot lossy decode is what was emitted followed by the lossy decode of what was kept |
| `StreamDecoder.PushAllIsOnePush` | leantty_ssh/leantty-ssh-core/src/utf8_decoder.rs:7-43 | pushing any chunks one by one is pushing their concatenation |
| `StreamDecoder.ChunkIndependence` | leantty_ssh/leantty-ssh-core/src/utf8_decoder.rs:7-52 | for every byte sequence and every way of cutting it, pushes followed by finish give the one-shot lossy decode |
| `StreamDecoder.DecodeChunks` | leantty_ssh/leantty-ssh-core/src/utf8_decoder.rs:7-52 | the decoder object, fed chunk by chunk and finished, returns the one-shot lossy decode of the concatenation |
| `StreamDecoder.LossyMeaning` | leantty_ssh/leantty-ssh-core/src/utf8_decoder.rs:13-52 | decoding with replacement gives the text `t` for `Encode(t)`, `t` and one U+FFFD for `Encode(t)` and an unfinished character, and `t`, one U+FFFD and the decoding of the rest behind a maximal ill-formed subpart in the sense of section 3.9 of the Unicode Standard |
| `StreamDecoder.EveryInput` | leantty_ssh/leantty-ssh-core/src/utf8_decoder.rs:13-52 | every input is an encoded text followed by nothing, by an unfinished character, or by a maximal ill-formed subpart and a rest, so these cases determine the decoding of every input |
| `StreamDecoder.BrokenStream` | leantty_ssh/leantty-ssh-core/src/utf8_decoder.rs:7-52 | a stream of chunks that breaks off inside a character has given all text before it, and keeps what there is of the character |
| `StreamDecoder.Fidelity` | leantty_ssh/leantty-ssh-core/src/utf8_decoder.rs:7-52 | encoding the output of well-formed input under any chunking gives back the bytes, and it does so for no other input |
| `StreamDecoder.LoneByteIsLost` | leantty_ssh/leantty-ssh-core/src/utf8_decoder.rs:29-31 | a byte that is never part of a character does not come back |
| `StreamDecoder.TextSurvivesCutting` | leantty_ssh/leantty-ssh-core/src/utf8_decoder.rs:7-43 | an encoded text, however cut, is emitted in full and leaves nothing pending |
| `KnownHostsText.JoinSplit` | leantty_ssh/leantty-ssh-core/src/known_hosts.rs:99-115 | joining the split parts gives back the text |
| `KnownHostsText.SplitJoin` | leantty_ssh/leantty-ssh-core/src/known_hosts.rs:99-115 | splitting the joined parts gives back the parts, if none contains the separator |
| `KnownHostsText.FieldsAround` | leantty_ssh/leantty-ssh-core/src/known_hosts.rs:112-117 | the fields of a line with a word put between two whitespace-bounded parts |
| `KnownHostsText.LinesCover` | leantty_ssh/leantty-ssh-core/src/known_hosts.rs:36-36 | the lines, with their endings, make up the content |
| `KnownHostsText.LinesOfPieces` | leantty_ssh/leantty-ssh-core/src/known_hosts.rs:36-47 | cutting the re-joined pieces into lines finds the non-empty pieces again |
| `KnownHosts.SkipAsciiWhitespace` | leantty_ssh/leantty-ssh-core/src/known_hosts.rs:152-157 | the end of the run of whitespace |
| `KnownHosts.SkipAsciiNonWhitespace` | leantty_ssh/leantty-ssh-core/src/known_hosts.rs:159-164 | the end of the run of other characters |
| `KnownHosts.FindHostField` | leantty_ssh/leantty-ssh-core/src/known_hosts.rs:129-150 | the tokenizer finds the bounds of the host field as specified |
| `KnownHosts.LineMatchesTarget` | leantty_ssh/leantty-ssh-core/src/known_hosts.rs:120-127 | whether some pattern of the host field matches |
| `KnownHosts.RemoveTargetFromLine` | leantty_ssh/leantty-ssh-core/src/known_hosts.rs:92-118 | a line is unchanged, removed, or re-printed with the retained patterns |
| `KnownHosts.SplitLineEnding` | leantty_ssh/leantty-ssh-core/src/known_hosts.rs:191-199 | body and ending make up the line; the ending is a line feed with or without carriage return, or nothing, and the body of an open line has none |
| `KnownHosts.RemoveKnownHostEntries` | leantty_ssh/leantty-ssh-core/src/known_hosts.rs:25-53 | for a valid host, the concatenated per-line edits and their number; an error otherwise; as one result that the lemmas on entries and whole files below speak about |
| `KnownHosts.FindKnownHostEntries` | leantty_ssh/leantty-ssh-core/src/known_hosts.rs:55-77 | for a valid host, the report on the matching line numbers and their count; an error otherwise; as one result that the lemmas below speak about |
| `KnownHostsOperations.BareEntry` | leantty_ssh/leantty-ssh-core/src/known_hosts.rs:17-77 | an entry for a bare host is removed, counted and reported for that host on port 22, and is left alone for every other port |
| `KnownHostsOperations.BracketedEntry` | leantty_ssh/leantty-ssh-core/src/known_hosts.rs:17-77 | an entry for the host in brackets with a number belongs to exactly the port of that number, unless it is 22 |
| `KnownHostsOperations.SharedEntry` | leantty_ssh/leantty-ssh-core/src/known_hosts.rs:92-118 | taking a host out of a list of three leaves the others in order with one comma between them, and the rest of the line |
| `KnownHostsOperations.MarkedEntry` | leantty_ssh/leantty-ssh-core/src/known_hosts.rs:129-150 | an entry behind a marker belongs to its host like any other |
| `KnownHostsOperations.IndentedEntry` | leantty_ssh/leantty-ssh-core/src/known_hosts.rs:129-164 | fields may be set apart by any blanks, tabs, form feeds and carriage returns |
| `KnownHostsOperations.CommentIsKept` | leantty_ssh/leantty-ssh-core/src/known_hosts.rs:129-138 | a comment is kept and found by no query, whatever it says |
| `KnownHostsOperations.HashedPattern` | leantty_ssh/leantty-ssh-core/src/known_hosts.rs:166-185 | a hashed pattern with a salt and a tag matches exactly if both decode and the tag is the keyed hash of the target under the salt |
| `KnownHostsOperations.HashedTooShort` | leantty_ssh/leantty-ssh-core/src/known_hosts.rs:171-177 | a hashed pattern without a tag matches nothing |
| `KnownHostsOperations.HashedTooLong` | leantty_ssh/leantty-ssh-core/src/known_hosts.rs:171-180 | a hashed pattern with more than a salt and a tag matches nothing |
| `KnownHostsOperations.RetainedAppend` | leantty_ssh/leantty-ssh-core/src/known_hosts.rs:99-107 | the retained patterns of two lists one behind the other are those of each |
| `KnownHostsOperations.RemovalDistributes` | leantty_ssh/leantty-ssh-core/src/known_hosts.rs:25-53 | a removal from two files one behind the other, the first ending in a line feed, is a removal from each, in content and number |
| `KnownHostsOperations.HostIsChecked` | leantty_ssh/leantty-ssh-core/src/known_hosts.rs:79-84 | query and removal refuse a host exactly if it is empty or holds a control character |
| `KnownHostsOperations.ReportEntry` | leantty_ssh/leantty-ssh-core/src/known_hosts.rs:65-74 | each line found adds its heading, with the 1-based number, and the line without its ending |
| `KnownHostsTheorems.BoundsMeaning` | leantty_ssh/leantty-ssh-core/src/known_hosts.rs:129-150 | the bounds delimit the first field, or the second behind a marker; there are none exactly for blank lines, comments and lone markers |
| `KnownHostsTheorems.EditMeaning` | leantty_ssh/leantty-ssh-core/src/known_hosts.rs:92-118 | what an edit does in terms of the line's fields: when it leaves the line, removes it, or replaces only the host field |
| `KnownHostsTheorems.EditedFields` | leantty_ssh/leantty-ssh-core/src/known_hosts.rs:92-118 | parsing the re-printed line gives the old fields with the host field rewritten |
| `KnownHostsTheorems.AfterEdit` | leantty_ssh/leantty-ssh-core/src/known_hosts.rs:92-127 | exactly which targets match a line after an edit, re-parsing included |
| `KnownHostsTheorems.LinesOfResult` | leantty_ssh/leantty-ssh-core/src/known_hosts.rs:36-47 | the lines of the result are the non-empty per-line edits, in order |
| `KnownHostsTheorems.QueryCountsEdits` | leantty_ssh/leantty-ssh-core/src/known_hosts.rs:36-74 | a query finds as many lines as a removal edits |
| `KnownHostsTheorems.QueryReportsEdits` | leantty_ssh/leantty-ssh-core/src/known_hosts.rs:65-74 | the reported numbers are the 1-based indices of the edited lines |
| `KnownHostsTheorems.QueryReportsInOrder` | leantty_ssh/leantty-ssh-core/src/known_hosts.rs:65-74 | they are strictly increasing |
| `KnownHostsTheorems.RemovalIsLocal` | leantty_ssh/leantty-ssh-core/src/known_hosts.rs:36-47 | each line has one image, and a line that does not match is copied byte for byte, ending included |
| `KnownHostsTheorems.EditIsLocal` | leantty_ssh/leantty-ssh-core/src/known_hosts.rs:92-118 | an edited line keeps everything outside the host field and its ending |
| `KnownHostsTheorems.RemovalIsComplete` | leantty_ssh/leantty-ssh-core/src/known_hosts.rs:25-77 | after a removal a query finds nothing, if and only if no edited line makes the target reappear |
| `KnownHostsTheorems.SafeTextNeverReappears` | leantty_ssh/leantty-ssh-core/src/known_hosts.rs:109-117 | a retained text that is not empty and, on an unmarked line, does not start with `@` never makes it reappear |
| `KnownHostsTheorems.SafeRemoval` | leantty_ssh/leantty-ssh-core/src/known_hosts.rs:25-77 | for every file in which each shared field retains such text, a removal leaves nothing for a query to find and a second one changes nothing |
| `KnownHostsTheorems.EditsShorten` | leantty_ssh/leantty-ssh-core/src/known_hosts.rs:36-47 | a removal shortens the content exactly if it edits a line, and otherwise returns it unchanged |
| `KnownHostsTheorems.RemovalIsIdempotent` | leantty_ssh/leantty-ssh-core/src/known_hosts.rs:25-53 | a second removal changes nothing, if and only if no edited line makes the target reappear |
| `KnownHostsSurvival.OtherAfterEdit` | leantty_ssh/leantty-ssh-core/src/known_hosts.rs:92-127 | exactly when an edit leaves it as it was whether another target matches the line |
| `KnownHostsSurvival.OthersSurvive` | leantty_ssh/leantty-ssh-core/src/known_hosts.rs:25-76 | the lines matching another target afterwards are the edited images of those before, in order and number, if and only if every line of it survives its edit |
| `KnownHostsSurvival.SafeTextSurvives` | leantty_ssh/leantty-ssh-core/src/known_hosts.rs:109-117 | a retained text that is not empty and, on an unmarked line, starts with neither `@` nor `#` survives |
| `KnownHostsSurvival.SafeSurvival` | leantty_ssh/leantty-ssh-core/src/known_hosts.rs:25-76 | for every file in which each shared field retains such text, the lines of another target are the edited images of those before |
| `KnownHostsSurvival.EmptyPatternExample` | leantty_ssh/leantty-ssh-core/src/known_hosts.rs:99-117 | a content for which a removal is not complete because an empty pattern is retained |
| `KnownHostsSurvival.MarkerExample` | leantty_ssh/leantty-ssh-core/src/known_hosts.rs:99-117 | a content for which it is not complete because the retained text reads as a marker |
| `KnownHostsSurvival.CommentExample` | leantty_ssh/leantty-ssh-core/src/known_hosts.rs:99-117 | a content for which another endpoint is lost because the line becomes a comment |
| `Authentication.SanitizedText` | leantty_ssh/leantty-ssh-core/src/authentication.rs:235-240 | sanitized text has only displayable characters and is unchanged by sanitizing again |
| `Authentication.SanitizedFits` | leantty_ssh/leantty-ssh-core/src/authentication.rs:235-240 | sanitizing never makes a text longer in bytes, so what was within the limits stays within them |
| `Authentication.SanitizedPrompts` | leantty_ssh/leantty-ssh-core/src/authentication.rs:194-205 | prompts keep their number, order and echo; their texts are sanitized and not longer in total |
| `AuthenticationOperations.SanitizeAppend` | leantty_ssh/leantty-ssh-core/src/authentication.rs:235-240 | each character is judged on its own: sanitizing a text in two parts gives the two sanitized parts |
| `AuthenticationOperations.ShownInFull` | leantty_ssh/leantty-ssh-core/src/authentication.rs:235-240 | a text of line feeds, carriage returns, tabs and characters that are not control characters is shown as it is |
| `AuthenticationOperations.NothingShown` | leantty_ssh/leantty-ssh-core/src/authentication.rs:235-240 | of a text of other control characters nothing is shown |
| `AuthenticationOperations.EscapeIsRemoved` | leantty_ssh/leantty-ssh-core/src/authentication.rs:235-240 | a prompt with an escape character inside, as it is shown |
| `AuthenticationOperations.BytesAreUtf8` | leantty_ssh/leantty-ssh-core/src/authentication.rs:172-186 | sizes are the lengths of the texts' UTF-8 encodings |
| `AuthenticationOperations.PresentedExactly` | leantty_ssh/leantty-ssh-core/src/authentication.rs:163-207 | a challenge is presented if and only if it comes in turn, fewer than eight came before, it has at most 16 prompts, and its texts have at most 4096 bytes each and the prompts 16384 together; what fails and what changes otherwise |
| `AuthenticationOperations.ValidatedExactly` | leantty_ssh/leantty-ssh-core/src/authentication.rs:209-232 | responses are accepted if and only if they answer the open challenge, prompt by prompt, within 4096 bytes each and 16384 together; the exact condition of each refusal, which changes nothing |
| `Authentication.AuthStateMachine.SelectNextMethod` | leantty_ssh/leantty-ssh-core/src/authentication.rs:89-141 | new state and action are those of the specified selection |
| `Authentication.AuthStateMachine.SubmitPrivateKeyPassphrase` | leantty_ssh/leantty-ssh-core/src/authentication.rs:143-151 | a passphrase is taken exactly while one is waited for |
| `Authentication.AuthStateMachine.SubmitPasswordEntry` | leantty_ssh/leantty-ssh-core/src/authentication.rs:153-161 | a password is taken exactly while one is waited for |
| `Authentication.AuthStateMachine.PresentChallengeToUser` | leantty_ssh/leantty-ssh-core/src/authentication.rs:163-207 | a challenge within all limits gets the next number and is shown sanitized; any other fails |
| `Authentication.AuthStateMachine.ValidateResponses` | leantty_ssh/leantty-ssh-core/src/authentication.rs:209-232 | responses are accepted exactly for the pending challenge, in the right number and within the limits |
| `AuthenticationLog.SelectStep` | leantty_ssh/leantty-ssh-core/src/authentication.rs:89-141 | a selection in agreement with the log takes the best method offered and untried, and fails only if there is none or the stages are used up |
| `AuthenticationLog.PresentStep` | leantty_ssh/leantty-ssh-core/src/authentication.rs:163-207 | in a keyboard-interactive exchange, presenting is the next event allowed, or a limit was exceeded; never an unexpected challenge |
| `AuthenticationLog.ValidateStep` | leantty_ssh/leantty-ssh-core/src/authentication.rs:209-232 | accepted responses answer the open challenge; each refusal has its reason |
| `AuthenticationDriver.PoseChallenge` | leantty_ssh/src/lib.rs:739-836 | one info request leads to one challenge and one response with its number, or ends the run with a reason |
| `AuthenticationDriver.RunCredential` | leantty_ssh/src/lib.rs:592-703 | the user is asked, the credential goes to the machine and to the server, and a wrong kind of answer ends the run |
| `AuthenticationDriver.RunAuthentication` | leantty_ssh/src/lib.rs:522-847 | every run, whatever server, user and callback do, ends; its log obeys the rules and repeats what the world did, each logged state of the machine agrees with the log up to there, the outcome has its reason, and it ends for lack of a supported method exactly if nothing but `none` was ever started and nothing usable offered |
| `AuthenticationTheorems.MachineFollowsLog` | leantty_ssh/leantty-ssh-core/src/authentication.rs:89-232 | at every entry of a run's log the machine's stage, rounds, pending challenge and attempt flags are those of the log, and the flag for any method is the disjunction of the three |
| `AuthenticationTheorems.Reachable` | leantty_ssh/src/lib.rs:556-845 | where a run can stand: never waiting for a credential while a challenge is open or a method is chosen |
| `AuthenticationTheorems.RunsAreBounded` | leantty_ssh/src/lib.rs:533-846 | at most 33 server exchanges and 24 prompts |
| `AuthenticationTheorems.BoundsAreReached` | leantty_ssh/src/lib.rs:533-846 | both bounds are reached by a log that obeys the rules and is true in some world |
| `AuthenticationTheorems.ExchangeBudget` | leantty_ssh/src/lib.rs:533-846 | exchanges are covered by the `none` request, three methods in each stage and one response for each answered challenge |
| `AuthenticationTheorems.PromptBudget` | leantty_ssh/src/lib.rs:592-834 | prompts are covered by two credentials in each stage and the challenges |
| `AuthenticationTheorems.TriedMeaning` | leantty_ssh/leantty-ssh-core/src/authentication.rs:97-136 | the methods counted as tried are those started since the last partial success |
| `AuthenticationTheorems.NoMethodTwice` | leantty_ssh/leantty-ssh-core/src/authentication.rs:97-136 | no method is started twice in a stage |
| `AuthenticationTheorems.ChosenIsBest` | leantty_ssh/leantty-ssh-core/src/authentication.rs:111-136 | each method follows a refusal that offers it; it was not started in the stage, none that goes before it (key, then keyboard-interactive, then password) could be used, and credentials are asked for exactly for a password and for a key under a passphrase |
| `AuthenticationTheorems.BestIsFirstUsable` | leantty_ssh/leantty-ssh-core/src/authentication.rs:111-140 | the choice by the rules is the first usable of key, keyboard-interactive and password, and none exactly if none is usable |
| `AuthenticationTheorems.RoundsAreNumbered` | leantty_ssh/leantty-ssh-core/src/authentication.rs:187-193 | the challenges of a run are numbered 1, 2, 3, ... without repetition, across stages |
| `AuthenticationTheorems.ResponseAnswersLatest` | leantty_ssh/src/lib.rs:726-834 | each response sent has the number of the latest challenge and one answer to each of its prompts, and nothing else was answered since |
| `AuthenticationTheorems.AnsweredOnce` | leantty_ssh/src/lib.rs:726-834 | later responses carry larger numbers, so no challenge is answered twice |
| `OutputDelivery.OutputDeliveryMetrics.RecordCallbackAttempt` | leantty_ssh/src/lib.rs:151-159 | an attempt counts as queued exactly if the status is `Ok`, and as a retry otherwise |
| `OutputDelivery.OutputDeliveryMetrics.RecordFinalDeliveryFailure` | leantty_ssh/src/lib.rs:161-164 | one more failure, with its bytes |
| `OutputDelivery.Deliver` | leantty_ssh/src/lib.rs:1035-1041 | the whole buffer is offered; it is empty afterwards if it was queued and as before if not; the metrics count it |
| `OutputDelivery.TakeData` | leantty_ssh/src/lib.rs:1053-1066 | data is appended and offered at once if it is short and alone or 64 KiB are pending; the stream stays exact |
| `OutputDelivery.RunOutputLoop` | leantty_ssh/src/lib.rs:1032-1091 | after any events: accepted batches followed by the buffer are the bytes read, refused batches come again in front, 64 KiB pending mean the last attempt was refused, the buffer stays below 512 KiB plus one packet, the metrics count it all |
| `OutputProgress.TickOffers` | leantty_ssh/src/lib.rs:1034-1043 | a tick that finds a non-empty buffer makes exactly one attempt, with all of it as the batch; the buffer is then empty if the status is `Ok` and as before if not; nothing else changes |
| `OutputProgress.TickDelivers` | leantty_ssh/src/lib.rs:1034-1043 | behind a tick with status `Ok`, the accepted bytes are all bytes read, at every moment of every run |
| `OutputProgress.PacketIsTaken` | leantty_ssh/src/lib.rs:1051-1066 | a packet is offered at once, with all that waits, if and only if it is alone and has 1 to 256 bytes or 65536 bytes wait with it; otherwise it joins the buffer |
| `OutputProgress.MessageIsTaken` | leantty_ssh/src/lib.rs:1068-1081 | of the other messages an exit status ends the loop and sets the code, a close and the end of the channel end it, and all others are skipped |
| `OutputProgress.NothingIsRead` | leantty_ssh/src/lib.rs:1051-1051 | a loop that has ended, is paused, or holds 524288 bytes reads nothing |
| `OutputProgress.PausedReadsNothing` | leantty_ssh/src/lib.rs:1047-1051 | a paused loop reads nothing whatever else happens, until the next word about pausing; accepted and waiting bytes together stay the same |
| `OutputProgress.OtherEvents` | leantty_ssh/src/lib.rs:1044-1091 | a disconnect and the end of the connection end the loop; pausing follows the last word about it, and a closed pause channel resumes |
| `OutputProgress.StreamIsExact` | leantty_ssh/src/lib.rs:1032-1091 | in every reachable state the accepted batches and the buffer are the bytes read |
| `OutputProgress.ExitCodeIsTold` | leantty_ssh/src/lib.rs:1068-1081 | the exit code is that of the last message read if it is an exit status, and -1 otherwise; no message before it ends the channel |
| `OutputProgress.BytesOfOne` | leantty_ssh/src/lib.rs:1053-1055 | data and extended data count as output with all their bytes, other messages with none |
| `OutputProgress.RetriedMeaning` | leantty_ssh/src/lib.rs:1038-1041 | no batch is empty and every refused batch is the beginning of the next one |
| `OutputDelivery.OfferedKeeps` | leantty_ssh/src/lib.rs:1035-1041 | offering keeps the stream exact, and a buffer that stays full was refused |
| `OutputDelivery.TakenKeeps` | leantty_ssh/src/lib.rs:1053-1066 | a packet keeps the stream exact in both cases |
| `OutputDelivery.EndedStays` | leantty_ssh/src/lib.rs:1068-1091 | events after the loop has ended change nothing |
| `OutputDelivery.DeliverFinal` | leantty_ssh/src/lib.rs:1103-1124 | what is pending is offered once for each answer up to the first `Ok`, at most 128 times, and not at all if there is nothing; it is lost if and only if none of 128 answers is `Ok`, and the metrics balance |
| `OutputDelivery.RunOutput` | leantty_ssh/src/lib.rs:1018-1124 | over a whole session, received bytes are queued bytes plus one lost suffix, in order and without gap or duplicate; the final offers are those of the buffer the loop left, and it is lost if and only if none of 128 answers is `Ok` |
| `ConnectDeadline.WaitForConnect` | leantty_ssh/src/lib.rs:855-888 | the result is that of the first poll that decides, in the order connection, disconnect, progress, deadline |
| `ConnectDeadline.TimesOutExactly` | leantty_ssh/src/lib.rs:864-887 | it times out at a poll if and only if nothing else is ready, the last progress is not a wait for the user, and the timeout has passed since the start and since every resumption |
| `ConnectDeadline.GoesOnExactly` | leantty_ssh/src/lib.rs:868-887 | the wait goes on behind some polls if and only if none of them finds a connection result, a disconnect, or the time over, in terms of the polls alone |
| `ConnectDeadline.EndsExactly` | leantty_ssh/src/lib.rs:868-887 | for each of the four results, the wait ends at a poll with it if and only if all earlier polls are without event and this one has, in this order, the connection's value or error, a disconnect, or the time over |
| `ConnectDeadline.UserMayTakeAnyTime` | leantty_ssh/src/lib.rs:877-886 | making the user's answer later by any delay changes neither when the wait ends, counted in polls, nor how |
| `WheelScrolling.GainIsSmooth` | entry/src/main/resources/rawfile/terminal-policy.js:80-86 | the gain lies within 0.4 and 8, is symmetric, never falls with speed and grows at most 2.4 times as much |
| `WheelScrolling.WheelState.EnqueueWheel` | entry/src/main/resources/rawfile/terminal-policy.js:88-119 | the new state is that of the specified event |
| `WheelScrolling.WheelState.ConsumeWheelFrame` | entry/src/main/resources/rawfile/terminal-policy.js:121-128 | steps and new state are those of the specified frame |
| `WheelOperations.UnitsScale` | entry/src/main/resources/rawfile/terminal-policy.js:91-116 | the lines an event stands for: as many as it says, that many screens, or its pixels by the cell height, with the gain for pixels alone |
| `WheelOperations.BacklogAfterEvent` | entry/src/main/resources/rawfile/terminal-policy.js:88-119 | an event adds its lines to the backlog, or to nothing after a pause of more than 80 ms or on a turn, within eight screens |
| `WheelOperations.VelocityAfterEvent` | entry/src/main/resources/rawfile/terminal-policy.js:97-112 | the velocity is the event's own at first and on a turn, and otherwise 65 parts of the velocity so far, zero after a pause, and 35 of the event's own, over 16 ms at first and 1 to 100 ms later |
| `WheelOperations.GainCorners` | entry/src/main/resources/rawfile/terminal-policy.js:80-86 | the gain is straight between 0.4, 2 and 8 at 0.5, 1.5 and 4 pixels per millisecond, and level outside |
| `WheelOperations.MostSteps` | entry/src/main/resources/rawfile/terminal-policy.js:124-124 | a frame may take 8 lines, or a screen and a quarter if that is more |
| `WheelOperations.FrameTakes` | entry/src/main/resources/rawfile/terminal-policy.js:121-128 | a frame leaves less than a line or takes as much as it may, going the way of the backlog |
| `WheelScrolling.EventKeeps` | entry/src/main/resources/rawfile/terminal-policy.js:88-119 | after an event backlog and velocity point its way, and the backlog is at most eight screens |
| `WheelScrolling.FrameConserves` | entry/src/main/resources/rawfile/terminal-policy.js:121-128 | a frame scrolls the way of the backlog, never past zero, and steps and rest add up to what there was |
| `WheelScrolling.RunKeeps` | entry/src/main/resources/rawfile/terminal-policy.js:88-128 | over any mix of events and frames, direction and bound hold, the bound being that of the last effective event's rows |
| `WheelScrolling.FramesScroll` | entry/src/main/resources/rawfile/terminal-policy.js:121-128 | what any number of frames scrolls, in closed form |
| `WheelScrolling.DrainedExactly` | entry/src/main/resources/rawfile/terminal-policy.js:121-136 | less than a line is left after n frames if and only if the whole lines fit into n full frames, and then all of them were scrolled |
| `WheelScrolling.SevenFrames` | entry/src/main/resources/rawfile/terminal-policy.js:88-128 | seven frames empty every backlog built for some rows, if and only if the whole lines of eight screens fit into seven full frames |
| `WheelScrolling.WholeRowsDrainInSeven` | entry/src/main/resources/rawfile/terminal-policy.js:88-128 | they do for every whole number of rows from one on, and the steps add up to the truncated backlog |
| `WheelScrolling.SevenIsTight` | entry/src/main/resources/rawfile/terminal-policy.js:88-128 | for seven rows six frames are not enough |
| `WheelScrolling.FractionalRowsMayNeedEight` | entry/src/main/resources/rawfile/terminal-policy.js:88-128 | for 7.19 rows seven frames are not enough |
| `Base64.EncodeBase64` | leantty_ssh/ssh-auth-fixture/src/main.rs:724-745 | the encoder's shifts and masks compute base64 as defined on 24-bit numbers |
| `Base64.EncodeThree` | leantty_ssh/ssh-auth-fixture/src/main.rs:728-743 | three bytes become the four symbols of their six-bit digits |
| `Base64.LongTestVectors` | leantty_ssh/ssh-auth-fixture/src/main.rs:724-745 | the test vectors of section 10 of RFC 4648 that are longer than three bytes |
| `Base64.ShortTestVectors` | leantty_ssh/ssh-auth-fixture/src/main.rs:724-745 | those up to three bytes, with their padding |
| `Base64.EncodeLength` | leantty_ssh/ssh-auth-fixture/src/main.rs:724-726 | the length is four for each group of three bytes begun |
| `Base64.DecodeEncode` | leantty_ssh/ssh-auth-fixture/src/main.rs:724-745 | what is encoded has the grammar's form and decodes to the same bytes |
| `Base64.DecodeLength` | entry/src/main/resources/rawfile/terminal-policy.js:22-26 | the length of text of that form is determined by the number of bytes decoded |
| `Base64.GrammarMeaning` | entry/src/main/resources/rawfile/terminal-policy.js:22-24 | the accepted form is a multiple of four characters, all of them symbols but for none, one or two `=` at the end |
| `Base64.EncodeDecode` | entry/src/main/resources/rawfile/terminal-policy.js:22-26 | encoding what was decoded gives the same text if and only if the dropped bits are zero |
| `Osc52.DecodeOsc52` | entry/src/main/resources/rawfile/terminal-policy.js:11-35 | the verdict on every payload, by its target and its encoded text behind the first separator |
| `Osc52.AcceptedExactly` | entry/src/main/resources/rawfile/terminal-policy.js:18-31 | a payload is accepted if and only if it targets the default clipboard and its text has the form and decodes to at most 1 MiB of well-formed UTF-8; the check of the encoded length refuses nothing else |
| `Osc52.RefusedExactly` | entry/src/main/resources/rawfile/terminal-policy.js:15-33 | the exact condition of each refusal, in the order of the checks and with the limits 1398104 and 1048576 |
| `Osc52.AcceptedText` | entry/src/main/resources/rawfile/terminal-policy.js:29-31 | what arrives is the text whose encoding was sent, without a byte order mark at its beginning, and the number of its bytes |
| `Osc52.EncodedVerdict` | entry/src/main/resources/rawfile/terminal-policy.js:21-27 | encoded bytes up to 1 MiB are judged by their content, 1 MiB plus one and plus two only fail when decoded, and longer ones fail by their encoded length |
| `Osc52.TextArrives` | entry/src/main/resources/rawfile/terminal-policy.js:25-31 | a text arrives as it was sent if and only if it fits and does not begin with a byte order mark |
| `Osc52.MarkIsDropped` | entry/src/main/resources/rawfile/terminal-policy.js:30-31 | a text that is only a byte order mark arrives empty |
| `PerfStream.ParseParts` | leantty_ssh/ssh-auth-fixture/src/main.rs:755-782 | what is parsed is within all bounds |
| `PerfStream.ParsePrepare` | leantty_ssh/ssh-auth-fixture/src/main.rs:766-781 | a printed request is parsed to itself if and only if it is within bounds |
| `PerfStream.ParseRun` | leantty_ssh/ssh-auth-fixture/src/main.rs:763-765 | a printed run command is parsed to itself if and only if its case id is valid |
| `PerfStream.ParseDecimal` | leantty_ssh/ssh-auth-fixture/src/main.rs:769-770 | a printed number is parsed to itself if and only if it fits into 64 bits |
| `PerfStreamOperations.ParsedNumber` | leantty_ssh/ssh-auth-fixture/src/main.rs:769-770 | what is read as a number: digits with or without a plus sign in front, of a value below 2^64 |
| `PerfStreamOperations.ParsedCommand` | leantty_ssh/ssh-auth-fixture/src/main.rs:755-782 | a text is parsed to a command if and only if its words are those of the command, within all bounds |
| `PerfStream.PrefixLength` | leantty_ssh/ssh-auth-fixture/src/main.rs:787-796 | every line's prefix has the length of the first and fits into the line, so no subtraction underflows |
| `PerfStream.BuildPerfStreamPayload` | leantty_ssh/ssh-auth-fixture/src/main.rs:784-793 | the payload is the announced number of lines, each filled up to its width |
| `PerfStreamOperations.PaddedExactly` | leantty_ssh/ssh-auth-fixture/src/main.rs:787-787 | five digits are what the number they stand for is padded to |
| `PerfStreamOperations.PrefixExactly` | leantty_ssh/ssh-auth-fixture/src/main.rs:787-787 | the beginning of a line with its case id and its number in five digits |
| `PerfStreamOperations.StreamExactly` | leantty_ssh/ssh-auth-fixture/src/main.rs:784-793 | the stream is its lines in order, each its beginning, then `X` up to the width, then carriage return and line feed |
| `PerfStream.StreamLength` | leantty_ssh/ssh-auth-fixture/src/main.rs:785-785 | its size is the number of lines times width plus two |
| `PerfStream.CountPerfPayloadBytes` | entry/src/main/resources/rawfile/terminal-policy.js:71-78 | the number of `X` in a text, and zero for anything else |
| `PerfStream.CountChunks` | entry/src/main/resources/rawfile/terminal-policy.js:71-78 | counts of chunks add up to the count of the whole |
| `PerfStream.AnnouncedIsCounted` | leantty_ssh/ssh-auth-fixture/src/main.rs:784-798 | what is counted of the stream, however cut, is what was announced, if and only if the case id has no `X` |
| `PerfStream.CaseIdIsCounted` | leantty_ssh/ssh-auth-fixture/src/main.rs:747-798 | a request that is accepted and whose stream is counted differently from what was announced |
| `PasteMatcher.Fixture.Data` | leantty_ssh/ssh-auth-fixture/src/main.rs:486-512 | a packet completes the payload, contradicts it or leaves it waiting, exactly as the bytes so far equal it, are no beginning of it, or are a proper one |
| `PasteMatcher.Receive` | leantty_ssh/ssh-auth-fixture/src/main.rs:486-512 | the reply to any packets and the number of packets it took |
| `PasteMatcher.ReplyToStream` | leantty_ssh/ssh-auth-fixture/src/main.rs:486-512 | the reply depends on the bytes alone, unless more than the payload comes in: then it matches if and only if a packet ends where the payload does |
| `PasteMatcher.CuttingDecides` | leantty_ssh/ssh-auth-fixture/src/main.rs:486-512 | a payload with one more byte matches or fails as that byte comes apart or together with the rest |
| `KeyFiles.RelockedIsSameKey` | leantty_ssh/leantty-ssh-core/src/keygen.rs:92-117 | the new content opens under the new passphrase to the same key, and is encrypted exactly if that passphrase is not empty |
| `KeyFiles.RelockedPassesCheck` | leantty_ssh/leantty-ssh-core/src/keygen.rs:138-156 | the check of the written file never refuses what was written well |
| `KeyFiles.CreatePassphraseTemporaryPath` | leantty_ssh/leantty-ssh-core/src/keygen.rs:169-189 | the first of a hundred candidates that is not found to exist, or none if all of them exist |
| `KeyFiles.LeftoverMeaning` | leantty_ssh/leantty-ssh-core/src/keygen.rs:178-186 | the candidate chosen belongs to an existing file if and only if some candidate goes unnoticed and all those before it are noticed; never if all files are noticed |
| `KeyFiles.TemporaryIsAnother` | leantty_ssh/leantty-ssh-core/src/keygen.rs:178-183 | no candidate is the target itself |
| `KeyFiles.Prepare` | leantty_ssh/leantty-ssh-core/src/keygen.rs:88-117 | the new content and the key, exactly if the file can be read and relocked, and the reason otherwise |
| `KeyFiles.WriteAndReplace` | leantty_ssh/leantty-ssh-core/src/keygen.rs:120-162 | success replaces the target by checked content; failure touches nothing but the temporary file, and nothing at all exactly if that could not be created |
| `KeyFiles.ReplaceOrCleanUp` | leantty_ssh/leantty-ssh-core/src/keygen.rs:120-166 | the same with the cleanup: exactly when everything is as before, as the deletion succeeds or fails |
| `KeyFiles.ChangePrivateKeyPassphrase` | leantty_ssh/leantty-ssh-core/src/keygen.rs:75-167 | success changes the target to the relocked content and nothing else; the exact condition under which a failure changes nothing, which with successful deletions is that no unnoticed leftover is chosen as temporary file; otherwise only that one file differs; a wrong passphrase touches nothing; without faults the result is determined |
| `KeyFiles.FaultlessSuccess` | leantty_ssh/leantty-ssh-core/src/keygen.rs:75-167 | without faults a change succeeds if and only if the key file exists and opens under the old passphrase, the key can be stored under the new one, and one of a hundred temporary names is free |
| `KeyFilesOperations.PlainKeyTakesNoPassphrase` | leantty_ssh/leantty-ssh-core/src/keygen.rs:91-101 | a key that is not encrypted opens with the empty passphrase, and every other one is refused |
| `KeyFilesOperations.RefusedPassphrase` | leantty_ssh/leantty-ssh-core/src/keygen.rs:91-101 | without faults a change fails for the old passphrase if and only if the file holds a key that does not open with it |
| `KeyFilesOperations.OtherReasons` | leantty_ssh/leantty-ssh-core/src/keygen.rs:87-118 | without faults, exactly when it fails for a missing file, for one that holds no key, and for want of a temporary name |
| `KeyFilesOperations.CheckedExactly` | leantty_ssh/leantty-ssh-core/src/keygen.rs:138-156 | the check passes exactly what holds, under the new passphrase, a key with the fingerprint and public key of the original |
| `KeyFilesOperations.TemporaryName` | leantty_ssh/leantty-ssh-core/src/keygen.rs:178-183 | the name of the temporary file, with the numbers of the process and of the attempt |
| `KeyFilesOperations.TemporariesDiffer` | leantty_ssh/leantty-ssh-core/src/keygen.rs:177-183 | every attempt has a name of its own |
| `KeyFilesOperations.FirstIsPicked` | leantty_ssh/leantty-ssh-core/src/keygen.rs:177-188 | the first of a hundred candidates that is not found is chosen, and none if all are found |
| `KeyFilesOperations.ExportNames` | leantty_ssh/leantty-ssh-core/src/keygen.rs:397-409 | a name can be exported to if and only if it is made of letters, digits, dots, underscores and hyphens, is not empty, `.` or `..`, and does not end in `.pub` in any case |
| `KeyFiles.ExportKeyPair` | leantty_ssh/leantty-ssh-core/src/keygen.rs:204-274 | no existing file changes, and none but the name and the name with `.pub` in the directory can be new, whatever fails; success adds exactly the two copies; failure leaves nothing behind if deletions succeed; the order of the first three refusals; without faults it succeeds if and only if sources are readable and destinations free |

## Left out

- N-API exports, thread-safe functions, tokio, russh, sockets, channels and logging: foreign code; their results are parameters of the models, and a callback that does not answer `Ok` is taken not to have queued the value.
- HMAC, base64 decoding of hashed patterns, key encoding, encryption, fingerprints: parameters. Four laws are assumed of keys, and only where a result says so: parsing undoes encoding, decryption undoes encryption, what was encrypted is recognised as encrypted, and what was decrypted is not.
- Widths of `u32`, `u64` and `usize` counters: numbers are unbounded, except where the bound matters (challenge numbers are shown to stay below 10, parsed numbers are checked against 64 bits).
- Byte offsets into `&str`: `known_hosts` text is modelled by characters, on which all the delimiters are single ASCII characters.
- The texts of error messages and events: modelled by their kind only.
- `leantty_ssh/src/utf8_decoder.rs`: a copy of the decoder modelled here.
- The addon files and the rest of the page scripts: third-party bundles, or single-branch helpers that would only add easy members.
- `generate_key_pair`, `inspect_private_key`, `load_private_key`, name checks for new keys: no transaction, or calls into foreign code.
- A closed progress channel in the connect wait: the sender lives as long as the connect future.
- Floating-point rounding, NaN, infinities and negative zero in the wheel code: numbers are ideal reals; a missing state object is not modelled.
- `Osc52.DecodeOsc52`: lengths count characters, not UTF-16 units, which differ only for payloads that are rejected anyway.
- `Base64.EncodeBase64`: the lookup table is a function on the same 64 symbols; capacity hints are not modelled.
- `PerfStream.ParsePrepare`: the command is given as text; that its bytes are UTF-8 is a parameter.
- `PasteMatcher.Fixture.Data`: only the branch with a pending paste; echo, navigation and commands are not modelled, nor is the construction of the payload.
- `KeyFiles.ChangePrivateKeyPassphrase`: a single writer and an atomic rename are assumed; directories, permissions, non-UTF-8 content and paths without parent or file name are not modelled, opening and reading a file are one operation.
- `AuthenticationDriver.RunAuthentication`: the loop's branches are separate methods; retries, generations and keepalives of the session around it are not modelled.
- `OutputDelivery.RunOutput`: the sleep between final attempts and the events sent with the metrics are not modelled.
