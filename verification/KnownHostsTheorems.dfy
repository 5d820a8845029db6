// What querying and removing promise together. Lines are compared through
// their whitespace-separated fields, so that a re-printed line can be read
// again.
module KnownHostsTheorems {
  import opened Options
  import opened Sequences
  import opened KnownHostsText
  import opened KnownHosts

  // The file after a removal.
  function Without(h: Hashing, target: string, content: string): string {
    Flatten(EditedAll(h, target, Lines(content)))
  }

  // ----- the host field among the fields -----

  function HostIndex(fields: seq<string>): (j: Option<nat>)
    ensures j.Some? ==> j.value < |fields|
  {
    if fields == [] || StartsWith(fields[0], '#') then None
    else if !StartsWith(fields[0], '@') then Some(0)
    else if |fields| == 1 then None
    else Some(1)
  }

  function HostOf(fields: seq<string>): Option<string> {
    match HostIndex(fields)
    case None => None
    case Some(j) => Some(fields[j])
  }

  predicate HostMatches(h: Hashing, target: string, host: Option<string>) {
    host.Some? && AnyMatches(h, target, Split(host.value, ','))
  }

  predicate FieldsMatch(h: Hashing, target: string, fields: seq<string>) {
    HostMatches(h, target, HostOf(fields))
  }

  // Field `j` of the line stands between `start` and `end`, and the parts
  // around it hold the other fields.
  ghost predicate Delimits(line: string, start: nat, end: nat, fields: seq<string>, j: nat) {
    && start <= end <= |line| && j < |fields|
    && line[start..end] == fields[j] && Spaceless(fields[j])
    && (start == 0 || IsAsciiWhitespace(line[start - 1]))
    && (end == |line| || IsAsciiWhitespace(line[end]))
    && Fields(line[..start]) == fields[..j]
    && Fields(line[end..]) == fields[j + 1..]
  }

  // The word behind leading whitespace is the first field.
  lemma FirstField(line: string)
    ensures var start := RunEnd(line, 0, true);
            if start == |line| then Fields(line) == []
            else
              var end := RunEnd(line, start, false);
              && Delimits(line, start, end, Fields(line), 0)
              && start < end && Fields(line)[0][0] == line[start]
  {
    var start := RunEnd(line, 0, true);
    var before := line[..start];
    assert before == line[0..start];
    RunEndMeaning(line, 0, true);
    FieldsOfBlank(before);
    if start == |line| {
      assert before == line;
    } else {
      var end := RunEnd(line, start, false);
      var word, after := line[start..end], line[end..];
      RunEndMeaning(line, start, false);
      assert start < end && word[0] == line[start];
      assert start == 0 || before[start - 1] == line[start - 1];
      assert end == |line| || after[0] == line[end];
      FieldsAround(before, word, after);
      Cut(line, start, end);
      FirstOf(word, Fields(after), Fields(line));
    }
  }

  lemma FirstOf(word: string, others: seq<string>, fields: seq<string>)
    requires fields == [] + [word] + others || fields == [word] + others
    ensures fields != [] && fields[0] == word && fields[..0] == [] && fields[1..] == others
  {
  }

  // The word behind position `k` and the whitespace there is the first field of
  // the rest.
  lemma FieldFrom(line: string, k: nat)
    requires k <= |line|
    ensures var next := RunEnd(line, k, true);
            if next == |line| then Fields(line[k..]) == []
            else
              var last := RunEnd(line, next, false);
              && Spaceless(line[next..last]) && (last == |line| || IsAsciiWhitespace(line[last]))
              && Fields(line[k..]) == [line[next..last]] + Fields(line[last..])
  {
    var next := RunEnd(line, k, true);
    RunEndMeaning(line, k, true);
    FieldsOfBlank(line[k..next]);
    if next < |line| {
      var last := RunEnd(line, next, false);
      RunEndMeaning(line, next, false);
      assert next < last;
      FieldsOfThree(line, k, next, last);
    } else {
      assert line[k..next] == line[k..];
    }
  }

  lemma FieldsOfThree(line: string, k: nat, next: nat, last: nat)
    requires k <= next < last <= |line| && Blank(line[k..next]) && Spaceless(line[next..last])
    requires last == |line| || IsAsciiWhitespace(line[last])
    ensures Fields(line[k..]) == [line[next..last]] + Fields(line[last..])
  {
    var (before, word, after) := (line[k..next], line[next..last], line[last..]);
    FieldsOfBlank(before);
    FieldsAround(before, word, after);
    ThreeParts(line, k, next, last);
    assert [] + [word] == [word];
  }

  lemma ThreeParts<T>(s: seq<T>, i: nat, j: nat, k: nat)
    requires i <= j <= k <= |s|
    ensures s[i..] == s[i..j] + s[j..k] + s[k..]
  {
  }

  // The word behind the first one, if there is any, is the second field.
  lemma SecondField(line: string, start: nat, end: nat)
    requires start < end && Delimits(line, start, end, Fields(line), 0)
    ensures var next := RunEnd(line, end, true);
            if next == |line| then |Fields(line)| == 1
            else Delimits(line, next, RunEnd(line, next, false), Fields(line), 1)
  {
    var next := RunEnd(line, end, true);
    FieldFrom(line, end);
    if next < |line| {
      var last := RunEnd(line, next, false);
      FieldsBefore(line, start, end, next);
      FirstOf(line[next..last], Fields(line[last..]), Fields(line[end..]));
      SecondOf(line[start..end], Fields(line[end..]), Fields(line));
    }
  }

  lemma FieldsBefore(line: string, start: nat, end: nat, next: nat)
    requires start < end && Delimits(line, start, end, Fields(line), 0) && next == RunEnd(line, end, true)
    ensures Fields(line[..next]) == [line[start..end]]
    ensures next < |line| ==> next > 0 && IsAsciiWhitespace(line[next - 1])
  {
    var before, word, gap := line[..start], line[start..end], line[end..next];
    RunEndMeaning(line, end, true);
    FieldsOfBlank(gap);
    assert gap == "" || (gap[0] == line[end] && gap[|gap| - 1] == line[next - 1]);
    assert start == 0 || before[start - 1] == line[start - 1];
    FieldsAround(before, word, gap);
    Cut(line, start, end);
    Cut(line, end, next);
    Associative(before, word, gap);
    assert [] + [word] + [] == [word];
  }

  lemma SecondOf(word: string, others: seq<string>, fields: seq<string>)
    requires fields != [] && fields[0] == word && fields[1..] == others && others != []
    ensures |fields| > 1 && fields[1] == others[0] && fields[2..] == others[1..]
    ensures [word] == fields[..1]
  {
  }

  // The bounds found by skipping bytes are those of the host field.
  lemma BoundsMeaning(line: string)
    ensures HostFieldBounds(line).None? <==> HostIndex(Fields(line)).None?
    ensures HostFieldBounds(line).Some? ==>
              var (start, end) := HostFieldBounds(line).value;
              Delimits(line, start, end, Fields(line), HostIndex(Fields(line)).value)
  {
    FirstField(line);
    var start := RunEnd(line, 0, true);
    if start < |line| {
      SecondField(line, start, RunEnd(line, start, false));
    }
  }

  lemma LineMatchesFields(h: Hashing, line: string, target: string)
    ensures LineMatches(h, line, target) <==> FieldsMatch(h, target, Fields(line))
  {
    BoundsMeaning(line);
  }

  lemma EndingAddsNoField(completeLine: string)
    ensures Fields(completeLine) == Fields(SplitLineEnding(completeLine).0)
  {
    var (line, ending) := SplitLineEnding(completeLine);
    FieldsWithEnding(line, ending);
  }

  lemma FieldsWithEnding(text: string, ending: string)
    requires ending == "\r\n" || ending == "\n" || ending == ""
    ensures Fields(text + ending) == Fields(text)
  {
    EndingIsBlank(ending);
    FieldsOfBlank(ending);
    FieldsAppend(text, ending);
    EmptyRight(Fields(text));
  }

  lemma EndingIsBlank(ending: string)
    requires ending == "\r\n" || ending == "\n" || ending == ""
    ensures Blank(ending) && (ending == "" || IsAsciiWhitespace(ending[0]))
  {
  }

  // ----- retained patterns -----

  lemma {:induction false} RetainedMeaning(h: Hashing, target: string, patterns: seq<string>)
    ensures var retained := Retained(h, target, patterns);
            && (forall k :: 0 <= k < |retained| ==> retained[k] in patterns && !PatternMatches(h, target, retained[k]))
            && (forall k :: 0 <= k < |patterns| ==>
                  PatternMatches(h, target, patterns[k]) || patterns[k] in retained)
            && |retained| <= |patterns|
            && (|retained| == |patterns| <==> !AnyMatches(h, target, patterns))
  {
    if patterns == [] {
    } else {
      var last := |patterns| - 1;
      RetainedMeaning(h, target, patterns[..last]);
      assert patterns == patterns[..last] + [patterns[last]];
      if PatternMatches(h, target, patterns[last]) {
        assert AnyMatches(h, target, patterns);
      } else if AnyMatches(h, target, patterns) {
        var i :| 0 <= i < |patterns| && PatternMatches(h, target, patterns[i]);
        assert PatternMatches(h, target, patterns[..last][i]);
      }
    }
  }

  // Both sides look at the same lines: a line is edited exactly when it matches.
  lemma EditedExactlyWhenMatching(h: Hashing, line: string, target: string)
    ensures EditLine(h, line, target).Unchanged? <==> !LineMatches(h, line, target)
  {
    match HostFieldBounds(line)
    case None =>
    case Some((start, end)) => RetainedMeaning(h, target, Split(line[start..end], ','));
  }

  lemma {:induction false} SplitKeepsSpaceless(s: string)
    requires Spaceless(s)
    ensures forall i :: 0 <= i < |Split(s, ',')| ==> Spaceless(Split(s, ',')[i])
  {
    if s == "" {
    } else {
      SplitKeepsSpaceless(s[1..]);
    }
  }

  lemma {:induction false} JoinKeepsSpaceless(parts: seq<string>)
    requires forall i :: 0 <= i < |parts| ==> Spaceless(parts[i])
    ensures Spaceless(Join(parts, ','))
  {
    if |parts| <= 1 {
    } else {
      JoinKeepsSpaceless(parts[1..]);
    }
  }

  // The retained patterns of a host field, printed, split into themselves.
  lemma RetainedText(h: Hashing, target: string, host: string)
    requires Spaceless(host)
    ensures var retained := Retained(h, target, Split(host, ','));
            && Spaceless(Join(retained, ','))
            && (retained != [] ==> Split(Join(retained, ','), ',') == retained)
  {
    var retained := Retained(h, target, Split(host, ','));
    RetainedMeaning(h, target, Split(host, ','));
    SplitKeepsSpaceless(host);
    SplitRemovesSeparator(host, ',');
    JoinKeepsSpaceless(retained);
    if retained != [] {
      SplitJoin(retained, ',');
    }
  }

  // ----- one edited line, read again -----

  // The fields of a line whose field `j` is now `text`.
  function Rewritten(fields: seq<string>, j: nat, text: string): seq<string>
    requires j < |fields|
  {
    fields[..j] + (if text == "" then [] else [text]) + fields[j + 1..]
  }

  lemma FieldsReplace(line: string, start: nat, end: nat, fields: seq<string>, j: nat, text: string)
    requires Delimits(line, start, end, fields, j) && Spaceless(text)
    ensures Fields(line[..start] + text + line[end..]) == Rewritten(fields, j, text)
  {
    assert start == 0 || line[..start][start - 1] == line[start - 1];
    assert end == |line| || line[end..][0] == line[end];
    FieldsAround(line[..start], text, line[end..]);
  }

  // The patterns that stay in the host field, and the text printed for it.
  function Stay(h: Hashing, target: string, fields: seq<string>): seq<string> {
    match HostOf(fields)
    case None => []
    case Some(host) => Retained(h, target, Split(host, ','))
  }

  function Printed(h: Hashing, target: string, fields: seq<string>): string {
    Join(Stay(h, target, fields), ',')
  }

  // The edit of a line in terms of its fields.
  lemma EditMeaning(h: Hashing, target: string, line: string)
    ensures var fields := Fields(line);
            match EditLine(h, line, target)
            case Unchanged => !FieldsMatch(h, target, fields)
            case Removed => FieldsMatch(h, target, fields) && Stay(h, target, fields) == []
            case Replaced(text) =>
              && FieldsMatch(h, target, fields) && Stay(h, target, fields) != []
              && Fields(text) == Rewritten(fields, HostIndex(fields).value, Printed(h, target, fields))
  {
    EditedExactlyWhenMatching(h, line, target);
    LineMatchesFields(h, line, target);
    BoundsMeaning(line);
    if EditLine(h, line, target).Replaced? {
      var (start, end) := HostFieldBounds(line).value;
      RetainedText(h, target, line[start..end]);
      FieldsReplace(line, start, end, Fields(line), HostIndex(Fields(line)).value, Printed(h, target, Fields(line)));
    }
  }

  lemma EditedFields(h: Hashing, target: string, completeLine: string)
    ensures var fields := Fields(completeLine);
            && (IsEdited(h, target, completeLine) <==> FieldsMatch(h, target, fields))
            && Fields(Edited(h, target, completeLine)) ==
               if !FieldsMatch(h, target, fields) then fields
               else if Stay(h, target, fields) == [] then []
               else Rewritten(fields, HostIndex(fields).value, Printed(h, target, fields))
  {
    var (line, ending) := SplitLineEnding(completeLine);
    EndingAddsNoField(completeLine);
    EditMeaning(h, target, line);
    if EditLine(h, line, target).Replaced? {
      FieldsWithEnding(EditLine(h, line, target).text, ending);
    }
  }

  // When the printed field no longer reads as the host field: it vanished, or
  // it now looks like a marker or a comment at the front of the line.
  predicate Misread(fields: seq<string>, text: string) {
    text == "" || (HostIndex(fields) == Some(0) && (StartsWith(text, '@') || StartsWith(text, '#')))
  }

  // The field that a later reader then takes for the host field instead.
  function Exposed(fields: seq<string>, text: string): Option<string>
    requires HostIndex(fields).Some?
  {
    var j := HostIndex(fields).value;
    if text == "" && j == 0 then HostOf(fields[1..])
    else if StartsWith(text, '#') || j + 1 == |fields| then None
    else Some(fields[j + 1])
  }

  lemma RewrittenHost(fields: seq<string>, text: string)
    requires HostIndex(fields).Some?
    ensures HostOf(Rewritten(fields, HostIndex(fields).value, text)) ==
            if Misread(fields, text) then Exposed(fields, text) else Some(text)
  {
    var j := HostIndex(fields).value;
    if text == "" && j == 0 {
      assert Rewritten(fields, j, text) == fields[1..];
    } else if text == "" {
      assert Rewritten(fields, j, text) == [fields[0]] + fields[2..];
    } else {
      assert Rewritten(fields, j, text) == fields[j := text];
    }
  }

  // Whether an endpoint `other` matches a line after `target` was removed from
  // it: decided by what stays, unless the line is misread.
  predicate MatchesAfterEdit(h: Hashing, target: string, other: string, fields: seq<string>)
    requires HostIndex(fields).Some?
  {
    && Stay(h, target, fields) != []
    && if Misread(fields, Printed(h, target, fields))
       then HostMatches(h, other, Exposed(fields, Printed(h, target, fields)))
       else AnyMatches(h, other, Stay(h, target, fields))
  }

  lemma AfterEdit(h: Hashing, target: string, other: string, completeLine: string)
    requires FieldsMatch(h, target, Fields(completeLine))
    ensures FieldsMatch(h, other, Fields(Edited(h, target, completeLine))) <==>
            MatchesAfterEdit(h, target, other, Fields(completeLine))
  {
    var fields := Fields(completeLine);
    EditedFields(h, target, completeLine);
    BoundsMeaning(completeLine);
    RetainedText(h, target, HostOf(fields).value);
    RewrittenHost(fields, Printed(h, target, fields));
  }

  // ----- the lines of the new file -----

  ghost predicate Matching(h: Hashing, target: string, completeLine: string) {
    FieldsMatch(h, target, Fields(completeLine))
  }

  // The lines that match, in order.
  ghost function Select(h: Hashing, target: string, lines: seq<string>): seq<string> {
    if lines == [] then []
    else (if Matching(h, target, lines[0]) then [lines[0]] else []) + Select(h, target, lines[1..])
  }

  lemma {:induction false} SelectNonEmpty(h: Hashing, target: string, parts: seq<string>)
    ensures Select(h, target, NonEmpty(parts)) == Select(h, target, parts)
  {
    if parts == [] {
    } else {
      SelectNonEmpty(h, target, parts[1..]);
      if parts[0] == "" {
        assert [] + NonEmpty(parts[1..]) == NonEmpty(parts[1..]);
      } else {
        assert ([parts[0]] + NonEmpty(parts[1..]))[1..] == NonEmpty(parts[1..]);
      }
    }
  }

  lemma BodyHasNoFeed(completeLine: string)
    requires '\n' !in completeLine || Terminated(completeLine)
    ensures '\n' !in SplitLineEnding(completeLine).0
  {
    var (line, ending) := SplitLineEnding(completeLine);
    if Terminated(completeLine) {
      assert forall k :: 0 <= k < |line| ==> completeLine[..|completeLine| - 1][k] == line[k];
    }
  }

  lemma WithEnding(text: string, ending: string)
    requires '\n' !in text && (ending == "\n" || ending == "\r\n")
    ensures Terminated(text + ending)
  {
    var whole := text + ending;
    assert whole[..|whole| - 1] == text + ending[..|ending| - 1];
  }

  // An edited line is still a piece of a file.
  lemma EditedPiece(h: Hashing, target: string, completeLine: string)
    requires '\n' !in completeLine || Terminated(completeLine)
    ensures var piece := Edited(h, target, completeLine);
            if Terminated(completeLine) then piece == "" || Terminated(piece) else '\n' !in piece
  {
    var (line, ending) := SplitLineEnding(completeLine);
    BodyHasNoFeed(completeLine);
    EndingOfPiece(completeLine);
    if EditLine(h, line, target).Replaced? {
      EditedTextHasNoFeed(h, target, line);
      TextWithEnding(EditLine(h, line, target).text, ending);
    }
  }

  lemma TextWithEnding(text: string, ending: string)
    requires '\n' !in text && (ending == "\r\n" || ending == "\n" || ending == "")
    ensures if ending != "" then Terminated(text + ending) else '\n' !in text + ending
  {
    if ending != "" {
      WithEnding(text, ending);
    } else {
      assert text + ending == text;
    }
  }

  lemma EndingOfPiece(completeLine: string)
    requires '\n' !in completeLine || Terminated(completeLine)
    ensures Terminated(completeLine) <==> SplitLineEnding(completeLine).1 != ""
  {
  }

  lemma EditedTextHasNoFeed(h: Hashing, target: string, line: string)
    requires '\n' !in line && EditLine(h, line, target).Replaced?
    ensures '\n' !in EditLine(h, line, target).text
  {
    var (start, end) := HostFieldBounds(line).value;
    BoundsMeaning(line);
    RetainedText(h, target, line[start..end]);
    NoFeedAround(line, start, end, Join(Retained(h, target, Split(line[start..end], ',')), ','));
  }

  lemma NoFeedAround(line: string, start: nat, end: nat, word: string)
    requires start <= end <= |line| && '\n' !in line && Spaceless(word)
    ensures '\n' !in line[..start] + word + line[end..]
  {
    assert forall k :: 0 <= k < |word| ==> word[k] != '\n';
  }

  lemma {:induction false} EditedPieces(h: Hashing, target: string, lines: seq<string>)
    requires Pieces(lines)
    ensures Pieces(EditedAll(h, target, lines))
  {
    if lines == [] {
    } else {
      var edited := EditedAll(h, target, lines);
      assert edited[1..] == EditedAll(h, target, lines[1..]);
      if lines[0] == "" {
        assert Edited(h, target, "") == "";
      } else {
        EditedPiece(h, target, lines[0]);
      }
      if |lines| > 1 {
        EditedPieces(h, target, lines[1..]);
        assert |EditedAll(h, target, lines[1..])| > 0;
      }
    }
  }

  // The new file is cut into exactly the edited lines that are left.
  lemma LinesOfResult(h: Hashing, target: string, content: string)
    ensures Lines(Without(h, target, content)) == NonEmpty(EditedAll(h, target, Lines(content)))
  {
    LinesCover(content);
    EditedPieces(h, target, Lines(content));
    LinesOfPieces(EditedAll(h, target, Lines(content)));
  }

  // ----- querying and removing look at the same lines -----

  lemma MatchingIsEdited(h: Hashing, target: string, completeLine: string)
    ensures var line := SplitLineEnding(completeLine).0;
            && (LineMatches(h, line, target) <==> Matching(h, target, completeLine))
            && (IsEdited(h, target, completeLine) <==> Matching(h, target, completeLine))
  {
    EndingAddsNoField(completeLine);
    LineMatchesFields(h, SplitLineEnding(completeLine).0, target);
    EditedFields(h, target, completeLine);
  }

  // A query counts as many lines as a removal edits.
  lemma {:induction false} QueryCountsEdits(h: Hashing, target: string, lines: seq<string>)
    ensures |MatchingLines(h, target, lines)| == EditedCount(h, target, lines)
  {
    if lines == [] {
    } else {
      var last := |lines| - 1;
      QueryCountsEdits(h, target, lines[..last]);
      CountAppend(h, target, lines[..last], lines[last]);
      assert lines[..last] + [lines[last]] == lines;
      MatchingIsEdited(h, target, lines[last]);
    }
  }

  // The numbers it reports are the 1-based places of the edited lines...
  lemma {:induction false} QueryReportsEdits(h: Hashing, target: string, lines: seq<string>, n: nat)
    ensures n in MatchingLines(h, target, lines) <==> 1 <= n <= |lines| && IsEdited(h, target, lines[n - 1])
  {
    if lines == [] {
    } else {
      var last := |lines| - 1;
      QueryReportsEdits(h, target, lines[..last], n);
      MatchingIsEdited(h, target, lines[last]);
      assert n in MatchingLines(h, target, lines) <==>
             n in MatchingLines(h, target, lines[..last])
             || (n == |lines| && LineMatches(h, SplitLineEnding(lines[last]).0, target));
    }
  }

  // ...in increasing order.
  lemma {:induction false} QueryReportsInOrder(h: Hashing, target: string, lines: seq<string>, i: nat, j: nat)
    requires i < j < |MatchingLines(h, target, lines)|
    ensures MatchingLines(h, target, lines)[i] < MatchingLines(h, target, lines)[j]
  {
    var before := MatchingLines(h, target, lines[..|lines| - 1]);
    if j == |before| {
    } else {
      QueryReportsInOrder(h, target, lines[..|lines| - 1], i, j);
    }
  }

  lemma {:induction false} EditedAt(h: Hashing, target: string, lines: seq<string>, i: nat)
    requires i < |lines|
    ensures |EditedAll(h, target, lines)| == |lines|
    ensures EditedAll(h, target, lines)[i] == Edited(h, target, lines[i])
  {
    if i > 0 {
      EditedAt(h, target, lines[1..], i - 1);
    } else if |lines| > 1 {
      EditedAt(h, target, lines[1..], 0);
    }
  }

  // A removal rewrites line by line. A line that does not match is copied with
  // its ending; one that does keeps everything around its host field, or goes.
  lemma RemovalIsLocal(h: Hashing, target: string, content: string, i: nat)
    requires i < |Lines(content)|
    ensures Flatten(Lines(content)) == content
    ensures |EditedAll(h, target, Lines(content))| == |Lines(content)|
    ensures var (before, after) := (Lines(content)[i], EditedAll(h, target, Lines(content))[i]);
            var line := SplitLineEnding(before).0;
            if !LineMatches(h, line, target) then after == before
            else
              after == "" ||
              var (start, end) := HostFieldBounds(line).value;
              after == before[..start] + Printed(h, target, Fields(line)) + before[end..]
  {
    LinesCover(content);
    EditedAt(h, target, Lines(content), i);
    EditIsLocal(h, target, Lines(content)[i]);
  }

  lemma EditIsLocal(h: Hashing, target: string, completeLine: string)
    ensures var (line, piece) := (SplitLineEnding(completeLine).0, Edited(h, target, completeLine));
            if !LineMatches(h, line, target) then piece == completeLine
            else
              piece == "" ||
              var (start, end) := HostFieldBounds(line).value;
              piece == completeLine[..start] + Printed(h, target, Fields(line)) + completeLine[end..]
  {
    var (line, ending) := SplitLineEnding(completeLine);
    EditedExactlyWhenMatching(h, line, target);
    if EditLine(h, line, target).Replaced? {
      BoundsMeaning(line);
      var (start, end) := HostFieldBounds(line).value;
      var printed := Printed(h, target, Fields(line));
      AroundAppend(line, ending, start, end);
      Associative(line[..start] + printed, line[end..], ending);
    }
  }

  // ----- a removal is complete -----

  // The line still matches after the edit: what stays is misread, and the field
  // taken for the host field instead holds the target.
  predicate Reappears(h: Hashing, target: string, completeLine: string) {
    var fields := Fields(completeLine);
    && FieldsMatch(h, target, fields)
    && Stay(h, target, fields) != []
    && Misread(fields, Printed(h, target, fields))
    && HostMatches(h, target, Exposed(fields, Printed(h, target, fields)))
  }

  lemma TargetAfterEdit(h: Hashing, target: string, completeLine: string)
    ensures Matching(h, target, Edited(h, target, completeLine)) <==> Reappears(h, target, completeLine)
  {
    var fields := Fields(completeLine);
    EditedFields(h, target, completeLine);
    if FieldsMatch(h, target, fields) {
      AfterEdit(h, target, target, completeLine);
      RetainedMeaning(h, target, Split(HostOf(fields).value, ','));
    }
  }

  lemma {:induction false} SelectEdited(h: Hashing, target: string, lines: seq<string>)
    ensures Select(h, target, EditedAll(h, target, lines)) == [] <==>
            forall l :: l in lines ==> !Reappears(h, target, l)
  {
    if lines == [] {
    } else {
      SelectEdited(h, target, lines[1..]);
      TargetAfterEdit(h, target, lines[0]);
      SelectCons(h, target, Edited(h, target, lines[0]), EditedAll(h, target, lines[1..]));
      assert forall l :: l in lines <==> l == lines[0] || l in lines[1..];
    }
  }

  lemma SelectCons(h: Hashing, target: string, first: string, rest: seq<string>)
    ensures Select(h, target, [first] + rest) == [] <==>
            !Matching(h, target, first) && Select(h, target, rest) == []
  {
    assert ([first] + rest)[1..] == rest;
  }

  lemma {:induction false} SelectCount(h: Hashing, target: string, lines: seq<string>)
    ensures |Select(h, target, lines)| == EditedCount(h, target, lines)
  {
    if lines == [] {
    } else {
      SelectCount(h, target, lines[1..]);
      MatchingIsEdited(h, target, lines[0]);
    }
  }

  // After a removal a query for the same target finds nothing, exactly when no
  // line of the file lets the target reappear.
  lemma RemovalIsComplete(h: Hashing, target: string, content: string)
    ensures MatchingLines(h, target, Lines(Without(h, target, content))) == [] <==>
            forall l :: l in Lines(content) ==> !Reappears(h, target, l)
  {
    var (lines, after) := (Lines(content), Lines(Without(h, target, content)));
    var pieces := EditedAll(h, target, lines);
    LinesOfResult(h, target, content);
    SelectNonEmpty(h, target, pieces);
    QueryCountsEdits(h, target, after);
    SelectCount(h, target, after);
    SelectEdited(h, target, lines);
  }

  // The condition a reader of the file can check at a glance: the text that
  // stays is not empty and, on a line without a marker, does not start one.
  predicate LeavesText(h: Hashing, target: string, completeLine: string) {
    var (fields, text) := (Fields(completeLine), Printed(h, target, Fields(completeLine)));
    FieldsMatch(h, target, fields) && Stay(h, target, fields) != [] ==>
      text != "" && (HostIndex(fields) == Some(0) ==> !StartsWith(text, '@'))
  }

  lemma SafeTextNeverReappears(h: Hashing, target: string, completeLine: string)
    requires LeavesText(h, target, completeLine)
    ensures !Reappears(h, target, completeLine)
  {
  }

  // ----- a second removal changes nothing -----

  lemma {:induction false} JoinRetainedShorter(h: Hashing, target: string, patterns: seq<string>)
    requires Retained(h, target, patterns) != []
    ensures |Join(Retained(h, target, patterns), ',')| <= |Join(patterns, ',')|
    ensures AnyMatches(h, target, patterns) ==>
              |Join(Retained(h, target, patterns), ',')| < |Join(patterns, ',')|
  {
    var last := |patterns| - 1;
    var before := patterns[..last];
    assert patterns == before + [patterns[last]];
    RetainedMeaning(h, target, before);
    RetainedMeaning(h, target, patterns);
    if Retained(h, target, before) == [] {
      assert Retained(h, target, patterns) == [patterns[last]];
      if before != [] {
        JoinAppend(before, patterns[last]);
      }
    } else {
      JoinRetainedShorter(h, target, before);
      JoinAppend(before, patterns[last]);
      var retained := Retained(h, target, before);
      if PatternMatches(h, target, patterns[last]) {
        assert Retained(h, target, patterns) == retained;
      } else {
        JoinAppend(retained, patterns[last]);
        AnyOfPrefix(h, target, before, patterns[last]);
        assert Retained(h, target, patterns) == retained + [patterns[last]];
      }
    }
  }

  lemma AnyOfPrefix(h: Hashing, target: string, before: seq<string>, last: string)
    requires !PatternMatches(h, target, last)
    ensures AnyMatches(h, target, before + [last]) ==> AnyMatches(h, target, before)
  {
    if AnyMatches(h, target, before + [last]) {
      var i :| 0 <= i < |before + [last]| && PatternMatches(h, target, (before + [last])[i]);
      assert before[i] == (before + [last])[i];
    }
  }

  lemma {:induction false} JoinAppend(parts: seq<string>, last: string)
    requires parts != []
    ensures |Join(parts + [last], ',')| == |Join(parts, ',')| + 1 + |last|
  {
    assert (parts + [last])[1..] == parts[1..] + [last];
    if |parts| > 1 {
      JoinAppend(parts[1..], last);
    } else {
      assert parts[1..] + [last] == [last];
    }
  }

  // Every edit makes a line shorter.
  lemma EditShortens(h: Hashing, target: string, completeLine: string)
    ensures IsEdited(h, target, completeLine) ==> |Edited(h, target, completeLine)| < |completeLine|
    ensures !IsEdited(h, target, completeLine) ==> Edited(h, target, completeLine) == completeLine
  {
    var (line, ending) := SplitLineEnding(completeLine);
    if EditLine(h, line, target).Replaced? {
      var (start, end) := HostFieldBounds(line).value;
      var patterns := Split(line[start..end], ',');
      RetainedMeaning(h, target, patterns);
      JoinRetainedShorter(h, target, patterns);
      JoinSplit(line[start..end], ',');
    }
  }

  lemma {:induction false} EditsShorten(h: Hashing, target: string, lines: seq<string>)
    ensures var after := Flatten(EditedAll(h, target, lines));
            if EditedCount(h, target, lines) == 0 then after == Flatten(lines)
            else |after| < |Flatten(lines)|
  {
    if lines == [] {
    } else {
      EditsShorten(h, target, lines[1..]);
      EditShortens(h, target, lines[0]);
      assert EditedAll(h, target, lines)[1..] == EditedAll(h, target, lines[1..]);
    }
  }

  // Removing twice is removing once, exactly when the first removal was complete.
  lemma RemovalIsIdempotent(h: Hashing, target: string, content: string)
    ensures var once := Without(h, target, content);
            Without(h, target, once) == once <==>
            forall l :: l in Lines(content) ==> !Reappears(h, target, l)
  {
    var once := Without(h, target, content);
    RemovalIsComplete(h, target, content);
    QueryCountsEdits(h, target, Lines(once));
    EditsShorten(h, target, Lines(once));
    LinesCover(once);
  }

  // So it is for every file in which each shared field leaves safe text.
  lemma SafeRemoval(h: Hashing, target: string, content: string)
    requires forall l :: l in Lines(content) ==> LeavesText(h, target, l)
    ensures var once := Without(h, target, content);
            MatchingLines(h, target, Lines(once)) == [] && Without(h, target, once) == once
  {
    forall l | l in Lines(content) ensures !Reappears(h, target, l) {
      assert LeavesText(h, target, l);
      SafeTextNeverReappears(h, target, l);
    }
    RemovalIsComplete(h, target, content);
    RemovalIsIdempotent(h, target, content);
  }
}
