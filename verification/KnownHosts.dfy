// Querying a known_hosts file for an endpoint and removing the endpoint from
// it, as imperative code over lines, fields and patterns.
module KnownHosts {
  import opened Options
  import opened Sequences
  import opened KnownHostsText
  import opened Decimals
  import opened Characters

  datatype Result<+T> = Ok(value: T) | Err(message: string)
  datatype Removal = Removal(content: string, removed: nat)
  datatype Query = Query(output: string, found: nat)
  datatype LineEdit = Unchanged | Removed | Replaced(text: string)

  // The foreign code behind a hashed pattern: base64 decoding, and whether a
  // tag is the keyed hash of a target. Every result below holds for any such
  // pair of functions.
  datatype Hashing = Hashing(decode: string -> Option<seq<int>>, verify: (seq<int>, string, seq<int>) -> bool)

  // ----- target and host -----

  function FormatTarget(host: string, port: nat): string {
    if port == 22 then host else "[" + host + "]:" + Decimal(port)
  }

  predicate ValidHost(host: string) {
    host != "" && forall k :: 0 <= k < |host| ==> !IsControl(host[k])
  }

  // ----- patterns -----

  predicate PatternMatches(h: Hashing, target: string, pattern: string) {
    if !("|1|" <= pattern) then target == pattern
    else
      var parts := Split(pattern, '|');
      |parts| == 4 &&
      match (h.decode(parts[2]), h.decode(parts[3]))
      case (Some(salt), Some(expected)) => h.verify(salt, target, expected)
      case _ => false
  }

  predicate AnyMatches(h: Hashing, target: string, patterns: seq<string>) {
    exists i :: 0 <= i < |patterns| && PatternMatches(h, target, patterns[i])
  }

  // The patterns that stay when `target` goes.
  function Retained(h: Hashing, target: string, patterns: seq<string>): seq<string> {
    if patterns == [] then []
    else
      var last := |patterns| - 1;
      Retained(h, target, patterns[..last])
      + (if PatternMatches(h, target, patterns[last]) then [] else [patterns[last]])
  }

  // ----- the host field -----

  method SkipAsciiWhitespace(s: string, start: nat) returns (offset: nat)
    requires start <= |s|
    ensures offset == RunEnd(s, start, true)
  {
    offset := start;
    while offset < |s| && IsAsciiWhitespace(s[offset])
      invariant offset <= |s| && RunEnd(s, start, true) == RunEnd(s, offset, true)
    {
      offset := offset + 1;
    }
  }

  method SkipAsciiNonWhitespace(s: string, start: nat) returns (offset: nat)
    requires start <= |s|
    ensures offset == RunEnd(s, start, false)
  {
    offset := start;
    while offset < |s| && !IsAsciiWhitespace(s[offset])
      invariant offset <= |s| && RunEnd(s, start, false) == RunEnd(s, offset, false)
    {
      offset := offset + 1;
    }
  }

  // The first field, or the second behind a marker; none in a blank line, a
  // comment or a lone marker.
  function HostFieldBounds(line: string): (r: Option<(nat, nat)>)
    ensures r.Some? ==> r.value.0 <= r.value.1 <= |line|
  {
    var start := RunEnd(line, 0, true);
    if start >= |line| || line[start] == '#' then None
    else
      var end := RunEnd(line, start, false);
      if line[start] != '@' then Some((start, end))
      else
        var hostStart := RunEnd(line, end, true);
        if hostStart >= |line| then None else Some((hostStart, RunEnd(line, hostStart, false)))
  }

  method FindHostField(line: string) returns (r: Option<(nat, nat)>)
    ensures r == HostFieldBounds(line)
  {
    var offset := SkipAsciiWhitespace(line, 0);
    if offset >= |line| || line[offset] == '#' {
      return None;
    }
    var firstStart := offset;
    offset := SkipAsciiNonWhitespace(line, offset);
    var firstEnd := offset;
    if StartsWith(line[firstStart..firstEnd], '@') {
      offset := SkipAsciiWhitespace(line, offset);
      if offset >= |line| {
        return None;
      }
      var hostStart := offset;
      var hostEnd := SkipAsciiNonWhitespace(line, offset);
      return Some((hostStart, hostEnd));
    }
    return Some((firstStart, firstEnd));
  }

  // ----- one line -----

  function LineMatches(h: Hashing, line: string, target: string): bool {
    match HostFieldBounds(line)
    case None => false
    case Some((start, end)) => AnyMatches(h, target, Split(line[start..end], ','))
  }

  function EditLine(h: Hashing, line: string, target: string): LineEdit {
    match HostFieldBounds(line)
    case None => Unchanged
    case Some((start, end)) =>
      var patterns := Split(line[start..end], ',');
      var retained := Retained(h, target, patterns);
      if |retained| == |patterns| then Unchanged
      else if retained == [] then Removed
      else Replaced(line[..start] + Join(retained, ',') + line[end..])
  }

  method LineMatchesTarget(h: Hashing, line: string, target: string) returns (r: bool)
    ensures r == LineMatches(h, line, target)
  {
    var bounds := FindHostField(line);
    match bounds
    case None => return false;
    case Some((start, end)) =>
      var patterns := Split(line[start..end], ',');
      var i := 0;
      while i < |patterns|
        invariant i <= |patterns|
        invariant forall k :: 0 <= k < i ==> !PatternMatches(h, target, patterns[k])
      {
        if PatternMatches(h, target, patterns[i]) {
          return true;
        }
        i := i + 1;
      }
      return false;
  }

  method RemoveTargetFromLine(h: Hashing, line: string, target: string) returns (r: LineEdit)
    ensures r == EditLine(h, line, target)
  {
    var bounds := FindHostField(line);
    match bounds
    case None => return Unchanged;
    case Some((start, end)) =>
      var patterns := Split(line[start..end], ',');
      var retained: seq<string> := [];
      var matched := false;
      var i := 0;
      while i < |patterns|
        invariant i <= |patterns|
        invariant retained == Retained(h, target, patterns[..i])
        invariant if matched then |retained| < i else |retained| == i
      {
        assert patterns[..i + 1][..i] == patterns[..i];
        if PatternMatches(h, target, patterns[i]) {
          matched := true;
        } else {
          retained := retained + [patterns[i]];
        }
        i := i + 1;
      }
      assert patterns[..i] == patterns;
      if !matched {
        return Unchanged;
      }
      if retained == [] {
        return Removed;
      }
      return Replaced(line[..start] + Join(retained, ',') + line[end..]);
  }

  // A line without its ending, and the ending.
  function SplitLineEnding(line: string): (r: (string, string))
    ensures r.0 + r.1 == line
    ensures r.1 == "\r\n" || r.1 == "\n" || r.1 == ""
    ensures r.1 == "" ==> line == "" || line[|line| - 1] != '\n'
  {
    if 2 <= |line| && line[|line| - 2..] == "\r\n" then (line[..|line| - 2], "\r\n")
    else if 1 <= |line| && line[|line| - 1] == '\n' then (line[..|line| - 1], "\n")
    else (line, "")
  }

  // ----- the whole file -----

  // What becomes of a line, its ending included.
  function Edited(h: Hashing, target: string, completeLine: string): string {
    var (line, ending) := SplitLineEnding(completeLine);
    match EditLine(h, line, target)
    case Unchanged => completeLine
    case Removed => ""
    case Replaced(text) => text + ending
  }

  predicate IsEdited(h: Hashing, target: string, completeLine: string) {
    !EditLine(h, SplitLineEnding(completeLine).0, target).Unchanged?
  }

  function EditedAll(h: Hashing, target: string, lines: seq<string>): seq<string> {
    if lines == [] then [] else [Edited(h, target, lines[0])] + EditedAll(h, target, lines[1..])
  }

  function EditedCount(h: Hashing, target: string, lines: seq<string>): nat {
    if lines == [] then 0
    else (if IsEdited(h, target, lines[0]) then 1 else 0) + EditedCount(h, target, lines[1..])
  }

  const INVALID_HOST := "invalid known_hosts host"

  // The result of a removal.
  ghost function Removing(h: Hashing, content: string, host: string, port: nat): Result<Removal> {
    if !ValidHost(host) then Err(INVALID_HOST)
    else
      var (target, lines) := (FormatTarget(host, port), Lines(content));
      Ok(Removal(Flatten(EditedAll(h, target, lines)), EditedCount(h, target, lines)))
  }

  // One line of a removal.
  method AppendEdited(h: Hashing, target: string, before: string, completeLine: string)
    returns (output: string, edited: bool)
    ensures output == before + Edited(h, target, completeLine)
    ensures edited <==> IsEdited(h, target, completeLine)
  {
    var (line, ending) := SplitLineEnding(completeLine);
    var edit := RemoveTargetFromLine(h, line, target);
    match edit
    case Unchanged => return before + completeLine, false;
    case Removed => return before, true;
    case Replaced(replacement) =>
      Associative(before, replacement, ending);
      output := before + replacement;
      output := output + ending;
      edited := true;
  }

  method RemoveKnownHostEntries(h: Hashing, content: string, host: string, port: nat) returns (r: Result<Removal>)
    ensures r.Ok? <==> ValidHost(host)
    ensures r == Removing(h, content, host, port)
    ensures r.Ok? ==>
              var (target, lines) := (FormatTarget(host, port), Lines(content));
              r.value == Removal(Flatten(EditedAll(h, target, lines)), EditedCount(h, target, lines))
  {
    if !ValidHost(host) {
      return Err(INVALID_HOST);
    }
    var result := RemoveTarget(h, content, FormatTarget(host, port));
    return Ok(result);
  }

  // The loop over the lines.
  method RemoveTarget(h: Hashing, content: string, target: string) returns (r: Removal)
    ensures var lines := Lines(content);
            r == Removal(Flatten(EditedAll(h, target, lines)), EditedCount(h, target, lines))
  {
    var lines := Lines(content);
    var output := "";
    var removed := 0;
    assert lines[..0] == [];
    var i := 0;
    while i < |lines|
      invariant i <= |lines|
      invariant output == Flatten(EditedAll(h, target, lines[..i]))
      invariant removed == EditedCount(h, target, lines[..i])
    {
      EditedSnoc(h, target, lines, i);
      var edited;
      output, edited := AppendEdited(h, target, output, lines[i]);
      removed := removed + if edited then 1 else 0;
      i := i + 1;
    }
    assert lines[..i] == lines;
    return Removal(output, removed);
  }

  lemma EditedCons(h: Hashing, target: string, first: string, rest: seq<string>)
    ensures EditedAll(h, target, [first] + rest) == [Edited(h, target, first)] + EditedAll(h, target, rest)
  {
    assert ([first] + rest)[1..] == rest;
  }

  lemma {:induction false} EditedAppend(h: Hashing, target: string, lines: seq<string>, line: string)
    ensures EditedAll(h, target, lines + [line]) == EditedAll(h, target, lines) + [Edited(h, target, line)]
  {
    if lines == [] {
      EditedCons(h, target, line, []);
      assert lines + [line] == [line] + [];
      var edited := [Edited(h, target, line)];
      assert edited + EditedAll(h, target, []) == EditedAll(h, target, []) + edited;
    } else {
      var (first, rest) := (lines[0], lines[1..]);
      EditedAppend(h, target, rest, line);
      EditedCons(h, target, first, rest);
      EditedCons(h, target, first, rest + [line]);
      HeadTail(lines, line);
      Associative([Edited(h, target, first)], EditedAll(h, target, rest), [Edited(h, target, line)]);
    }
  }

  lemma {:induction false} CountAppend(h: Hashing, target: string, lines: seq<string>, line: string)
    ensures EditedCount(h, target, lines + [line]) ==
            EditedCount(h, target, lines) + (if IsEdited(h, target, line) then 1 else 0)
  {
    if lines == [] {
      assert (lines + [line])[1..] == [];
    } else {
      CountAppend(h, target, lines[1..], line);
      assert (lines + [line])[1..] == lines[1..] + [line];
    }
  }

  lemma EditedSnoc(h: Hashing, target: string, lines: seq<string>, i: nat)
    requires i < |lines|
    ensures Flatten(EditedAll(h, target, lines[..i + 1])) ==
            Flatten(EditedAll(h, target, lines[..i])) + Edited(h, target, lines[i])
    ensures EditedCount(h, target, lines[..i + 1]) ==
            EditedCount(h, target, lines[..i]) + (if IsEdited(h, target, lines[i]) then 1 else 0)
  {
    assert lines[..i + 1] == lines[..i] + [lines[i]];
    EditedAppend(h, target, lines[..i], lines[i]);
    CountAppend(h, target, lines[..i], lines[i]);
    FlattenSnoc(EditedAll(h, target, lines[..i]), Edited(h, target, lines[i]));
  }

  // The 1-based numbers of the matching lines.
  function MatchingLines(h: Hashing, target: string, lines: seq<string>): (numbers: seq<nat>)
    ensures forall k :: 0 <= k < |numbers| ==> 1 <= numbers[k] <= |lines|
  {
    if lines == [] then []
    else
      var last := |lines| - 1;
      MatchingLines(h, target, lines[..last])
      + (if LineMatches(h, SplitLineEnding(lines[last]).0, target) then [|lines|] else [])
  }

  // The report on the lines with the given numbers.
  function Report(target: string, lines: seq<string>, numbers: seq<nat>): string {
    if numbers == [] then ""
    else
      var last := |numbers| - 1;
      Report(target, lines, numbers[..last]) + Entry(target, lines, numbers[last])
  }

  function Entry(target: string, lines: seq<string>, number: nat): string {
    Heading(target, number) + (if 1 <= number <= |lines| then SplitLineEnding(lines[number - 1]).0 + "\n" else "")
  }

  function Heading(target: string, number: nat): string {
    "# Host " + target + " found: line " + Decimal(number) + "\n"
  }

  lemma ReportSnoc(target: string, lines: seq<string>, numbers: seq<nat>, number: nat)
    ensures Report(target, lines, numbers + [number]) == Report(target, lines, numbers) + Entry(target, lines, number)
  {
    assert (numbers + [number])[..|numbers|] == numbers;
  }

  // The result of a query.
  ghost function Finding(h: Hashing, content: string, host: string, port: nat): Result<Query> {
    if !ValidHost(host) then Err(INVALID_HOST)
    else
      var (target, lines) := (FormatTarget(host, port), Lines(content));
      var numbers := MatchingLines(h, target, lines);
      Ok(Query(Report(target, lines, numbers), |numbers|))
  }

  // What one more line adds to the numbers and to the report.
  lemma QuerySnoc(h: Hashing, target: string, lines: seq<string>, i: nat)
    requires i < |lines|
    ensures var line := SplitLineEnding(lines[i]).0;
            var (before, after) := (MatchingLines(h, target, lines[..i]), MatchingLines(h, target, lines[..i + 1]));
            if LineMatches(h, line, target) then
              && |after| == |before| + 1
              && Report(target, lines, after) ==
                 Report(target, lines, before) + (Heading(target, i + 1) + (line + "\n"))
            else after == before
  {
    assert lines[..i + 1][..i] == lines[..i];
    ReportSnoc(target, lines, MatchingLines(h, target, lines[..i]), i + 1);
  }

  method FindKnownHostEntries(h: Hashing, content: string, host: string, port: nat) returns (r: Result<Query>)
    ensures r.Ok? <==> ValidHost(host)
    ensures r == Finding(h, content, host, port)
    ensures r.Ok? ==>
              var (target, lines) := (FormatTarget(host, port), Lines(content));
              var numbers := MatchingLines(h, target, lines);
              r.value == Query(Report(target, lines, numbers), |numbers|)
  {
    if !ValidHost(host) {
      return Err(INVALID_HOST);
    }
    var result := FindTarget(h, content, FormatTarget(host, port));
    return Ok(result);
  }

  // The first `i` lines were looked at.
  ghost predicate Queried(h: Hashing, target: string, lines: seq<string>, i: nat, output: string, found: nat)
    requires i <= |lines|
  {
    var numbers := MatchingLines(h, target, lines[..i]);
    output == Report(target, lines, numbers) && found == |numbers|
  }

  // One line of a query.
  method QueryLine(h: Hashing, target: string, lines: seq<string>, index: nat, before: string, count: nat)
    returns (output: string, found: nat)
    requires index < |lines| && Queried(h, target, lines, index, before, count)
    ensures Queried(h, target, lines, index + 1, output, found)
  {
    QuerySnoc(h, target, lines, index);
    var (line, _) := SplitLineEnding(lines[index]);
    var matches := LineMatchesTarget(h, line, target);
    if !matches {
      return before, count;
    }
    found := count + 1;
    output := before + (Heading(target, index + 1) + (line + "\n"));
  }

  // The loop over the lines.
  method FindTarget(h: Hashing, content: string, target: string) returns (r: Query)
    ensures var (lines, numbers) := (Lines(content), MatchingLines(h, target, Lines(content)));
            r == Query(Report(target, lines, numbers), |numbers|)
  {
    var lines := Lines(content);
    var output, found := "", 0;
    assert lines[..0] == [];
    var index := 0;
    while index < |lines|
      invariant index <= |lines|
      invariant Queried(h, target, lines, index, output, found)
    {
      output, found := QueryLine(h, target, lines, index, output, found);
      index := index + 1;
    }
    assert lines[..index] == lines;
    return Query(output, found);
  }
}
