// The fixture's output benchmark: a command announces a stream of lines filled
// up with `X`, the terminal counts the `X` it receives.
module PerfStream {
  import opened Options
  import opened Sequences
  import opened KnownHostsText
  import opened Decimals

  const PERF_PREPARE_COMMAND: string := "ltty-perf-prepare"
  const PERF_RUN_COMMAND: string := "ltty-perf-run"
  const PERF_MAX_CASE_ID_LENGTH: nat := 24
  const PERF_MAX_LINES: nat := 12000
  const PERF_MIN_LINE_WIDTH: nat := 48
  const PERF_MAX_LINE_WIDTH: nat := 160
  const USIZE_LIMIT: nat := 0x1_0000_0000_0000_0000

  datatype PerfStreamRequest = PerfStreamRequest(caseId: string, lines: nat, lineWidth: nat)
  datatype PerfCommand = Prepare(request: PerfStreamRequest) | Run(caseId: string)

  // ----- decimal numbers -----

  function Zeros(n: nat): string { seq(n, _ => '0') }

  // A number padded with zeros to at least five digits.
  function Padded(n: nat): string {
    var digits := Decimal(n);
    if |digits| < 5 then Zeros(5 - |digits|) + digits else digits
  }

  // `str::parse::<usize>`: an optional plus sign, digits, and no overflow.
  function ParseUsize(s: string): Option<nat> {
    var digits := if StartsWith(s, '+') then s[1..] else s;
    if digits == "" || !AllDigits(digits) || ValueOf(digits) >= USIZE_LIMIT then None else Some(ValueOf(digits))
  }

  lemma ParseDecimal(n: nat)
    ensures ParseUsize(Decimal(n)) == if n < USIZE_LIMIT then Some(n) else None
  {
    DecimalValue(n);
    DecimalIsWord(n);
  }

  // ----- commands -----

  predicate IsCaseIdCharacter(c: char) {
    'a' <= c <= 'z' || 'A' <= c <= 'Z' || IsDigit(c) || c == '-' || c == '_'
  }

  predicate IsValidPerfCaseId(caseId: string) {
    0 < |caseId| <= PERF_MAX_CASE_ID_LENGTH && forall i :: 0 <= i < |caseId| ==> IsCaseIdCharacter(caseId[i])
  }

  predicate IsValid(r: PerfStreamRequest) {
    && IsValidPerfCaseId(r.caseId) && 1 <= r.lines <= PERF_MAX_LINES
    && PERF_MIN_LINE_WIDTH <= r.lineWidth <= PERF_MAX_LINE_WIDTH
  }

  function ParseParts(parts: seq<string>): (r: Option<PerfCommand>)
    ensures r.Some? && r.value.Prepare? ==> IsValid(r.value.request)
    ensures r.Some? && r.value.Run? ==> IsValidPerfCaseId(r.value.caseId)
  {
    if |parts| < 2 || !IsValidPerfCaseId(parts[1]) then None
    else if parts[0] == PERF_RUN_COMMAND then
      if |parts| == 2 then Some(Run(parts[1])) else None
    else if parts[0] != PERF_PREPARE_COMMAND || |parts| < 4 then None
    else
      var (lines, width) := (ParseUsize(parts[2]), ParseUsize(parts[3]));
      if lines.None? || width.None? || |parts| > 4 then None
      else if 1 <= lines.value <= PERF_MAX_LINES && PERF_MIN_LINE_WIDTH <= width.value <= PERF_MAX_LINE_WIDTH then
        Some(Prepare(PerfStreamRequest(parts[1], lines.value, width.value)))
      else None
  }

  // The input is the text of the command, or nothing if it is not UTF-8.
  function ParsePerfCommand(input: Option<string>): (r: Option<PerfCommand>)
    ensures r.Some? && r.value.Prepare? ==> IsValid(r.value.request)
    ensures r.Some? && r.value.Run? ==> IsValidPerfCaseId(r.value.caseId)
  {
    if input.None? then None else ParseParts(Fields(input.value))
  }

  ghost predicate Words(words: seq<string>) {
    forall i :: 0 <= i < |words| ==> words[i] != "" && Spaceless(words[i])
  }

  lemma {:induction false} FieldsOfJoined(words: seq<string>)
    requires Words(words)
    ensures Fields(Join(words, ' ')) == words
  {
    if |words| == 1 {
      FieldsOfWord(words[0]);
    } else if |words| > 1 {
      FieldsOfJoined(words[1..]);
      var more := Join(words[1..], ' ');
      FieldsAppend(words[0] + " ", more);
      FieldsAppend(words[0], " ");
      FieldsOfWord(words[0]);
      FieldsOfBlank(" ");
    }
  }

  lemma CommandWords()
    ensures Words([PERF_RUN_COMMAND, PERF_PREPARE_COMMAND]) && PERF_RUN_COMMAND != PERF_PREPARE_COMMAND
  {
    assert |PERF_RUN_COMMAND| == 13 && |PERF_PREPARE_COMMAND| == 17;
  }

  function PrepareWords(r: PerfStreamRequest): seq<string> {
    [PERF_PREPARE_COMMAND, r.caseId, Decimal(r.lines), Decimal(r.lineWidth)]
  }

  lemma PartsOfPrepare(r: PerfStreamRequest)
    requires IsValid(r)
    ensures ParseParts(PrepareWords(r)) == Some(Prepare(r))
  {
    CommandWords();
    ParseDecimal(r.lines);
    ParseDecimal(r.lineWidth);
  }

  lemma PrepareInWords(r: PerfStreamRequest)
    requires IsValidPerfCaseId(r.caseId)
    ensures Words(PrepareWords(r))
  {
    var words := [PERF_RUN_COMMAND, PERF_PREPARE_COMMAND];
    CommandWords();
    assert words[1] == PERF_PREPARE_COMMAND;
    DecimalIsWord(r.lines);
    DecimalIsWord(r.lineWidth);
  }

  // A command written with its words apart is understood exactly if it is within
  // bounds.
  lemma ParsePrepare(r: PerfStreamRequest)
    ensures ParsePerfCommand(Some(Join(PrepareWords(r), ' '))) == Some(Prepare(r)) <==> IsValid(r)
  {
    if IsValid(r) {
      PrepareInWords(r);
      FieldsOfJoined(PrepareWords(r));
      PartsOfPrepare(r);
    }
  }

  lemma ParseRun(caseId: string)
    ensures ParsePerfCommand(Some(Join([PERF_RUN_COMMAND, caseId], ' '))) == Some(Run(caseId)) <==>
            IsValidPerfCaseId(caseId)
  {
    if IsValidPerfCaseId(caseId) {
      FieldsOfJoined([PERF_RUN_COMMAND, caseId]);
    }
  }

  // ----- the stream -----

  function Prefix(r: PerfStreamRequest, line: nat): string {
    "LTTY_PERF_" + r.caseId + "_" + Padded(line) + " "
  }

  lemma PrefixLength(r: PerfStreamRequest, line: nat)
    requires line < PERF_MAX_LINES
    ensures |Prefix(r, line)| == 17 + |r.caseId|
    ensures IsValid(r) ==> |Prefix(r, line)| < r.lineWidth
  {
    assert Power10(5) == 100000;
    DecimalLength(line, 5);
  }

  function Filler(n: nat): string { seq(n, _ => 'X') }

  // A line of `width` characters with this beginning.
  function Line(prefix: string, width: nat): string
    requires |prefix| <= width
  {
    prefix + Filler(width - |prefix|) + "\r\n"
  }

  ghost predicate Fit(prefix: nat -> string, width: nat, n: nat) {
    forall i: nat :: i < n ==> |prefix(i)| <= width
  }

  // `n` lines of this width, each with its own beginning.
  function Lines(prefix: nat -> string, width: nat, n: nat): (lines: seq<string>)
    requires Fit(prefix, width, n)
    ensures |lines| == n
  {
    if n == 0 then [] else Lines(prefix, width, n - 1) + [Line(prefix(n - 1), width)]
  }

  function PrefixOf(r: PerfStreamRequest): nat -> string {
    (line: nat) => Prefix(r, line)
  }

  lemma PrefixesFit(r: PerfStreamRequest)
    requires IsValid(r)
    ensures Fit(PrefixOf(r), r.lineWidth, r.lines)
  {
    forall i: nat | i < r.lines ensures |PrefixOf(r)(i)| <= r.lineWidth {
      PrefixLength(r, i);
    }
  }

  function Stream(r: PerfStreamRequest): string
    requires IsValid(r)
  {
    PrefixesFit(r);
    Flatten(Lines(PrefixOf(r), r.lineWidth, r.lines))
  }

  method BuildPerfStreamPayload(r: PerfStreamRequest) returns (payload: string)
    requires IsValid(r)
    ensures payload == Stream(r)
  {
    PrefixesFit(r);
    payload := "";
    for line := 0 to r.lines
      invariant payload == Flatten(Lines(PrefixOf(r), r.lineWidth, line))
    {
      var prefix := PrefixOf(r)(line);
      ghost var before := payload;
      payload := payload + prefix;
      payload := payload + Filler(r.lineWidth - |prefix|);
      payload := payload + "\r\n";
      assert payload == before + Line(prefix, r.lineWidth);
      FlattenSnoc(Lines(PrefixOf(r), r.lineWidth, line), Line(prefix, r.lineWidth));
    }
  }

  function PerfStreamExpectedBytes(r: PerfStreamRequest): nat
    requires IsValid(r)
  {
    PrefixLength(r, 0);
    (r.lineWidth - |Prefix(r, 0)|) * r.lines
  }

  // ----- counting -----

  function Count(s: string, c: char): nat {
    if s == "" then 0 else Count(s[..|s| - 1], c) + (if s[|s| - 1] == c then 1 else 0)
  }

  method CountPerfPayloadBytes(payload: Option<string>) returns (count: nat)
    ensures count == if payload.Some? then Count(payload.value, 'X') else 0
  {
    if payload.None? {
      return 0;
    }
    count := 0;
    var s := payload.value;
    for i := 0 to |s|
      invariant count == Count(s[..i], 'X')
    {
      assert s[..i + 1][..i] == s[..i];
      if s[i] as int == 88 {
        count := count + 1;
      }
    }
    assert s[..|s|] == s;
  }

  lemma {:induction false} CountAppend(s: string, t: string, c: char)
    ensures Count(s + t, c) == Count(s, c) + Count(t, c)
  {
    if t == "" {
      assert s + t == s;
    } else {
      assert (s + t)[..|s + t| - 1] == s + t[..|t| - 1];
      CountAppend(s, t[..|t| - 1], c);
    }
  }

  lemma {:induction false} CountNone(s: string, c: char)
    ensures Count(s, c) == 0 <==> c !in s
  {
    if s == "" {
    } else {
      CountNone(s[..|s| - 1], c);
      assert s == s[..|s| - 1] + [s[|s| - 1]];
    }
  }

  lemma {:induction false} CountFiller(n: nat)
    ensures Count(Filler(n), 'X') == n
  {
    if n == 0 {
    } else {
      assert Filler(n)[..n - 1] == Filler(n - 1);
      CountFiller(n - 1);
    }
  }

  // What is counted chunk by chunk adds up, however the stream was cut.
  function CountAll(chunks: seq<string>, c: char): nat {
    if chunks == [] then 0 else Count(chunks[0], c) + CountAll(chunks[1..], c)
  }

  lemma {:induction false} CountChunks(chunks: seq<string>, c: char)
    ensures CountAll(chunks, c) == Count(Flatten(chunks), c)
  {
    if chunks == [] {
    } else {
      CountChunks(chunks[1..], c);
      CountAppend(chunks[0], Flatten(chunks[1..]), c);
    }
  }

  // ----- the size of the stream and what is counted of it -----

  lemma {:induction false} DigitsHoldNoX(n: nat)
    ensures 'X' !in Padded(n)
  {
    DecimalHoldsNoX(n);
  }

  lemma {:induction false} DecimalHoldsNoX(n: nat)
    ensures 'X' !in Decimal(n)
  {
    if n < 10 {
    } else {
      DecimalHoldsNoX(n / 10);
    }
  }

  // A text of the given length with `k` times `X`.
  predicate Measures(s: string, length: nat, k: nat) {
    |s| == length && Count(s, 'X') == k
  }

  lemma LineCount(prefix: string, width: nat, length: nat, k: nat)
    requires Measures(prefix, length, k) && length <= width
    ensures Measures(Line(prefix, width), width + 2, width - length + k)
  {
    var filler := Filler(width - |prefix|);
    CountAppend(prefix + filler, "\r\n", 'X');
    CountAppend(prefix, filler, 'X');
    CountFiller(|filler|);
    CountNone("\r\n", 'X');
  }

  lemma PrefixCount(r: PerfStreamRequest, line: nat)
    ensures Count(Prefix(r, line), 'X') == Count(r.caseId, 'X')
  {
    var number := Padded(line);
    CountAround(r.caseId, number);
    DigitsHoldNoX(line);
    CountNone(number, 'X');
  }

  lemma CountAround(caseId: string, number: string)
    ensures Count("LTTY_PERF_" + caseId + "_" + number + " ", 'X') == Count(caseId, 'X') + Count(number, 'X')
  {
    CountAppend("LTTY_PERF_" + caseId + "_" + number, " ", 'X');
    CountAppend("LTTY_PERF_" + caseId + "_", number, 'X');
    CountAppend("LTTY_PERF_" + caseId, "_", 'X');
    CountAppend("LTTY_PERF_", caseId, 'X');
    CountNone("LTTY_PERF_", 'X');
    CountNone("_", 'X');
    CountNone(" ", 'X');
  }

  // Counting line by line, without multiplying.
  function Times(n: nat, k: nat): nat { if n == 0 then 0 else Times(n - 1, k) + k }

  lemma {:induction false} TimesIs(n: nat, k: nat)
    ensures Times(n, k) == n * k
  {
    if n == 0 {
    } else {
      TimesIs(n - 1, k);
      assert n * k == (n - 1) * k + k;
    }
  }

  lemma {:induction false} TimesPlus(n: nat, k: nat, x: nat)
    ensures Times(n, k + x) == Times(n, k) + Times(n, x)
    ensures Times(n, x) == 0 <==> n == 0 || x == 0
  {
    if n == 0 {
    } else {
      TimesPlus(n - 1, k, x);
    }
  }

  ghost predicate AllMeasure(prefix: nat -> string, n: nat, length: nat, k: nat) {
    forall i: nat :: i < n ==> Measures(prefix(i), length, k)
  }

  lemma {:induction false} LinesCount(prefix: nat -> string, width: nat, n: nat, length: nat, k: nat)
    requires length <= width && AllMeasure(prefix, n, length, k)
    ensures Fit(prefix, width, n)
    ensures Measures(Flatten(Lines(prefix, width, n)), Times(n, width + 2), Times(n, width - length + k))
  {
    if n == 0 {
    } else {
      LinesCount(prefix, width, n - 1, length, k);
      LineCount(prefix(n - 1), width, length, k);
      var (before, line) := (Lines(prefix, width, n - 1), Line(prefix(n - 1), width));
      FlattenSnoc(before, line);
      CountAppend(Flatten(before), line, 'X');
    }
  }

  lemma ExpectedBytesIs(r: PerfStreamRequest)
    requires IsValid(r)
    ensures PerfStreamExpectedBytes(r) == Times(r.lines, r.lineWidth - 17 - |r.caseId|)
  {
    PrefixLength(r, 0);
    TimesIs(r.lines, r.lineWidth - 17 - |r.caseId|);
  }

  lemma PrefixesMeasure(r: PerfStreamRequest, length: nat, k: nat)
    requires IsValid(r) && length == 17 + |r.caseId| && k == Count(r.caseId, 'X')
    ensures AllMeasure(PrefixOf(r), r.lines, length, k)
  {
    forall i: nat | i < r.lines ensures Measures(PrefixOf(r)(i), length, k) {
      PrefixLength(r, i);
      PrefixCount(r, i);
    }
  }

  lemma CountedIfNoX(r: PerfStreamRequest, counted: nat)
    requires IsValid(r)
    requires counted == Times(r.lines, r.lineWidth - 17 - |r.caseId| + Count(r.caseId, 'X'))
    ensures counted == PerfStreamExpectedBytes(r) <==> 'X' !in r.caseId
  {
    CountNone(r.caseId, 'X');
    ExpectedBytesIs(r);
    TimesPlus(r.lines, r.lineWidth - 17 - |r.caseId|, Count(r.caseId, 'X'));
  }

  lemma StreamMeasures(r: PerfStreamRequest, length: nat, k: nat)
    requires IsValid(r) && length == 17 + |r.caseId| && k == Count(r.caseId, 'X')
    ensures Measures(Stream(r), Times(r.lines, r.lineWidth + 2), Times(r.lines, r.lineWidth - length + k))
  {
    PrefixesFit(r);
    PrefixesMeasure(r, length, k);
    LinesCount(PrefixOf(r), r.lineWidth, r.lines, length, k);
  }

  lemma WholeStream(r: PerfStreamRequest)
    requires IsValid(r)
    ensures Flatten([Stream(r)]) == Stream(r)
  {
    FlattenOne(Stream(r));
  }

  lemma StreamLength(r: PerfStreamRequest)
    requires IsValid(r)
    ensures |Stream(r)| == r.lines * (r.lineWidth + 2)
  {
    StreamMeasures(r, 17 + |r.caseId|, Count(r.caseId, 'X'));
    TimesIs(r.lines, r.lineWidth + 2);
  }

  // The terminal counts what was announced, however the stream is cut, exactly
  // if the case id holds no `X` itself.
  lemma AnnouncedIsCounted(r: PerfStreamRequest, chunks: seq<string>)
    requires IsValid(r) && Flatten(chunks) == Stream(r)
    ensures CountAll(chunks, 'X') == PerfStreamExpectedBytes(r) <==> 'X' !in r.caseId
  {
    StreamMeasures(r, 17 + |r.caseId|, Count(r.caseId, 'X'));
    CountChunks(chunks, 'X');
    CountedIfNoX(r, CountAll(chunks, 'X'));
  }

  // A case id that is accepted and counted along.
  lemma CaseIdIsCounted()
    ensures var r := PerfStreamRequest("X", 1, 48);
            IsValid(r) && CountAll([Stream(r)], 'X') != PerfStreamExpectedBytes(r)
  {
    var r := PerfStreamRequest("X", 1, 48);
    assert IsValid(r) && 'X' in r.caseId;
    WholeStream(r);
    AnnouncedIsCounted(r, [Stream(r)]);
  }
}
