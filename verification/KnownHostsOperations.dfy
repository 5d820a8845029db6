// What removal and query do to concrete entries, written out in text: which
// spelling of an endpoint belongs to which port, what a shared entry keeps, and
// what a report looks like.
module KnownHostsOperations {
  import opened Options
  import opened Sequences
  import opened KnownHostsText
  import opened KnownHosts
  import opened Decimals

  // ----- one entry -----

  // A word that can be the host field: not empty, no whitespace, no marker and no
  // comment.
  ghost predicate FieldWord(field: string) {
    field != "" && Spaceless(field) && field[0] != '@' && field[0] != '#'
  }

  ghost predicate Ending(ending: string) {
    ending == "" || ending == "\n" || ending == "\r\n"
  }

  // A line with this host field and something behind it.
  function EntryLine(field: string, key: string, ending: string): string {
    field + " " + key + ending
  }

  ghost predicate IsEntry(field: string, key: string, ending: string) {
    FieldWord(field) && key != "" && Spaceless(key) && Ending(ending)
  }

  lemma EntryParts(field: string, key: string, ending: string)
    requires IsEntry(field, key, ending)
    ensures var line := EntryLine(field, key, ending);
            Lines(line) == [line] && SplitLineEnding(line) == (field + " " + key, ending)
  {
    var body := field + " " + key;
    var line := EntryLine(field, key, ending);
    assert line == body + ending;
    assert '\n' !in body && body[|body| - 1] == key[|key| - 1] by {
      NoFeed(field, key);
    }
    EndingIs(body, ending);
    if ending == "" {
      LinesOfOpen(line);
    } else {
      assert line[..|line| - 1] == body + ending[..|ending| - 1];
      assert Terminated(line);
      LinesPrepend(line, "");
      assert line + "" == line;
    }
  }

  lemma NoFeed(field: string, key: string)
    requires Spaceless(field) && Spaceless(key)
    ensures '\n' !in field + " " + key
  {
    assert forall k :: 0 <= k < |field| ==> field[k] != '\n';
    assert forall k :: 0 <= k < |key| ==> key[k] != '\n';
  }

  lemma EndingIs(body: string, ending: string)
    requires body != "" && body[|body| - 1] != '\n' && body[|body| - 1] != '\r' && Ending(ending)
    ensures SplitLineEnding(body + ending) == (body, ending)
  {
    var line := body + ending;
    AppendCut(body, ending);
    ReturnFeed(line);
    if ending == "" {
      EmptyRight(body);
    } else {
      assert |line| == |body| + |ending|;
      assert line[|line| - 1] == '\n' && line[|line| - 2] == (if ending == "\n" then body[|body| - 1] else '\r');
    }
  }

  lemma ReturnFeed(line: string)
    ensures |line| >= 2 ==>
              (line[|line| - 2..] == "\r\n" <==> line[|line| - 2] == '\r' && line[|line| - 1] == '\n')
  {
    if |line| >= 2 {
      assert line[|line| - 2..] == [line[|line| - 2], line[|line| - 1]];
    }
  }

  lemma EntryBounds(field: string, key: string)
    requires FieldWord(field)
    ensures var line := field + " " + key;
            && HostFieldBounds(line) == Some((0, |field|))
            && line[0..|field|] == field && line[..0] == "" && line[|field|..] == " " + key
  {
    var line := field + " " + key;
    assert line[0..|field|] == field && line[0] == field[0] && line[|field|] == ' ';
    RunEndIs(line, 0, 0, true);
    RunEndIs(line, 0, |field|, false);
  }

  // What becomes of the entry when the patterns of its host field are known.
  lemma EntryEdited(h: Hashing, target: string, field: string, key: string, ending: string)
    requires IsEntry(field, key, ending)
    ensures var (line, patterns) := (EntryLine(field, key, ending), Split(field, ','));
            var retained := Retained(h, target, patterns);
            && Edited(h, target, line) ==
               (if |retained| == |patterns| then line
                else if retained == [] then ""
                else EntryLine(Join(retained, ','), key, ending))
            && (IsEdited(h, target, line) <==> |retained| != |patterns|)
            && LineMatches(h, field + " " + key, target) == AnyMatches(h, target, patterns)
  {
    var line := field + " " + key;
    EntryParts(field, key, ending);
    EntryBounds(field, key);
    FieldEdited(h, target, line, field, " " + key);
    Around(Join(Retained(h, target, Split(field, ',')), ','), " ", key);
  }

  lemma FieldEdited(h: Hashing, target: string, line: string, field: string, behind: string)
    requires HostFieldBounds(line) == Some((0, |field|))
    requires line[0..|field|] == field && line[..0] == "" && line[|field|..] == behind
    ensures var patterns := Split(field, ',');
            var retained := Retained(h, target, patterns);
            && EditLine(h, line, target) ==
               (if |retained| == |patterns| then Unchanged
                else if retained == [] then Removed
                else Replaced("" + Join(retained, ',') + behind))
            && LineMatches(h, line, target) == AnyMatches(h, target, patterns)
  {
  }

  lemma Around<T>(a: seq<T>, b: seq<T>, c: seq<T>)
    ensures [] + a + (b + c) == a + b + c
  {
  }

  // The result for a file of one line.
  lemma OneLine(h: Hashing, target: string, line: string)
    requires Lines(line) == [line]
    ensures Flatten(EditedAll(h, target, Lines(line))) == Edited(h, target, line)
    ensures EditedCount(h, target, Lines(line)) == if IsEdited(h, target, line) then 1 else 0
    ensures MatchingLines(h, target, Lines(line)) ==
            if LineMatches(h, SplitLineEnding(line).0, target) then [1] else []
  {
    EditedCons(h, target, line, []);
    assert [line] + [] == [line];
    assert [Edited(h, target, line)] + [] == [Edited(h, target, line)];
    FlattenOne(Edited(h, target, line));
    assert [line][1..] == [] && [line][..0] == [];
  }

  // ----- patterns -----

  // A pattern that is not hashed stands for the target of the same text.
  lemma PlainPattern(h: Hashing, target: string, pattern: string)
    requires !("|1|" <= pattern)
    ensures PatternMatches(h, target, pattern) <==> pattern == target
  {
  }

  // A hashed pattern holds a salt and a keyed hash.
  lemma HashedPattern(h: Hashing, target: string, salt: string, tag: string)
    requires '|' !in salt && '|' !in tag
    ensures PatternMatches(h, target, "|1|" + salt + "|" + tag) <==>
            && h.decode(salt).Some? && h.decode(tag).Some?
            && h.verify(h.decode(salt).value, target, h.decode(tag).value)
  {
    HashedParts(salt + "|" + tag);
    SplitPrepend(tag, "", '|');
    SplitPrepend(salt, tag, '|');
    assert "|1|" + salt + "|" + tag == "|1|" + (salt + "|" + tag);
  }

  // With less or more than that it stands for nothing.
  lemma HashedTooShort(h: Hashing, target: string, salt: string)
    requires '|' !in salt
    ensures !PatternMatches(h, target, "|1|" + salt)
  {
    HashedParts(salt);
    SplitPrepend(salt, "", '|');
  }

  lemma HashedTooLong(h: Hashing, target: string, salt: string, tag: string, more: string)
    requires '|' !in salt && '|' !in tag
    ensures !PatternMatches(h, target, "|1|" + (salt + "|" + (tag + "|" + more)))
  {
    HashedParts(salt + "|" + (tag + "|" + more));
    SplitPrepend(tag, more, '|');
    SplitPrepend(salt, tag + "|" + more, '|');
  }

  lemma HashedParts(rest: string)
    ensures "|1|" <= "|1|" + rest
    ensures Split("|1|" + rest, '|') == ["", "1"] + Split(rest, '|')
  {
    SplitPrepend("", "1" + ['|'] + rest, '|');
    SplitPrepend("1", rest, '|');
    HashedFront(rest);
    TwoInFront("", "1", Split(rest, '|'));
  }

  lemma HashedFront(rest: string)
    ensures "" + ['|'] + ("1" + ['|'] + rest) == "|1|" + rest
  {
  }

  lemma TwoInFront<T>(a: T, b: T, s: seq<T>)
    ensures [a] + ([b] + s) == [a, b] + s
  {
  }

  // The patterns that stay keep their order.
  lemma {:induction false} RetainedAppend(h: Hashing, target: string, a: seq<string>, b: seq<string>)
    ensures Retained(h, target, a + b) == Retained(h, target, a) + Retained(h, target, b)
  {
    if b == [] {
      assert a + b == a;
    } else {
      var (front, last) := (b[..|b| - 1], b[|b| - 1]);
      RetainedAppend(h, target, a, front);
      assert (a + b)[..|a + b| - 1] == a + front;
      Associative(Retained(h, target, a), Retained(h, target, front),
                  if PatternMatches(h, target, last) then [] else [last]);
    }
  }

  lemma RetainedOne(h: Hashing, target: string, pattern: string)
    ensures Retained(h, target, [pattern]) == if PatternMatches(h, target, pattern) then [] else [pattern]
    ensures AnyMatches(h, target, [pattern]) <==> PatternMatches(h, target, pattern)
  {
    assert [pattern][..0] == [] && [pattern][0] == pattern;
  }

  // ----- which entry belongs to which port -----

  // A host that can be asked for, and stands for itself as a pattern.
  ghost predicate PlainHost(host: string) {
    && host != "" && (forall k :: 0 <= k < |host| ==> ' ' < host[k] < '\U{7F}' || '\U{9F}' < host[k])
    && ',' !in host && host[0] != '@' && host[0] != '#' && !("|1|" <= host)
  }

  lemma PlainHostIsWord(host: string)
    requires PlainHost(host)
    ensures FieldWord(host) && ValidHost(host)
  {
  }

  // The one-pattern entry for `field` goes if the field is the target, and stays
  // otherwise; a query reports it or nothing.
  lemma OnePatternEntry(h: Hashing, content: string, host: string, port: nat, field: string, key: string,
                        ending: string)
    requires ValidHost(host) && IsEntry(field, key, ending) && ',' !in field && !("|1|" <= field)
    requires content == EntryLine(field, key, ending)
    ensures FormatTarget(host, port) == field ==>
              && Removing(h, content, host, port) == Ok(Removal("", 1))
              && Finding(h, content, host, port) ==
                 Ok(Query("# Host " + field + " found: line 1\n" + (field + " " + key) + "\n", 1))
    ensures FormatTarget(host, port) != field ==>
              Removing(h, content, host, port) == Ok(Removal(content, 0)) &&
              Finding(h, content, host, port) == Ok(Query("", 0))
  {
    var target := FormatTarget(host, port);
    SplitPrepend(field, "", ',');
    EntryParts(field, key, ending);
    EntryEdited(h, target, field, key, ending);
    OneLine(h, target, content);
    RetainedOne(h, target, field);
    PlainPattern(h, target, field);
    OneReport(target, content, field + " " + key);
  }

  lemma OneReport(target: string, content: string, body: string)
    requires Lines(content) == [content] && SplitLineEnding(content).0 == body
    ensures Report(target, Lines(content), []) == ""
    ensures Report(target, Lines(content), [1]) == "# Host " + target + " found: line 1\n" + body + "\n"
  {
    assert [1][..0] == [] && Decimal(1) == "1";
    assert [content][0] == content;
    assert Report(target, Lines(content), [1]) == "" + Entry(target, [content], 1);
    assert "# Host " + target + " found: line " + "1" + "\n" == "# Host " + target + " found: line 1\n";
    Associative("# Host " + target + " found: line 1\n", body, "\n");
  }

  // An entry for the bare host belongs to port 22 and to no other.
  lemma BareEntry(h: Hashing, host: string, key: string, ending: string, port: nat)
    requires PlainHost(host) && key != "" && Spaceless(key) && Ending(ending)
    ensures var content := host + " " + key + ending;
            && Removing(h, content, host, port) == Ok(if port == 22 then Removal("", 1) else Removal(content, 0))
            && Finding(h, content, host, port) ==
               Ok(if port == 22 then Query("# Host " + host + " found: line 1\n" + (host + " " + key) + "\n", 1)
                  else Query("", 0))
  {
    PlainHostIsWord(host);
    OnePatternEntry(h, host + " " + key + ending, host, port, host, key, ending);
  }

  // An entry for the host in brackets with a number belongs to the port of that
  // number, unless it is 22, and to no other.
  lemma BracketedEntry(h: Hashing, host: string, digits: string, key: string, ending: string, port: nat)
    requires PlainHost(host) && Canonical(digits) && key != "" && Spaceless(key) && Ending(ending)
    ensures var (field, content) := ("[" + host + "]:" + digits, "[" + host + "]:" + digits + " " + key + ending);
            && Removing(h, content, host, port) ==
               Ok(if port == ValueOf(digits) && port != 22 then Removal("", 1) else Removal(content, 0))
            && Finding(h, content, host, port) ==
               Ok(if port == ValueOf(digits) && port != 22
                  then Query("# Host " + field + " found: line 1\n" + (field + " " + key) + "\n", 1)
                  else Query("", 0))
  {
    PlainHostIsWord(host);
    BracketedWord(host, digits);
    CanonicalMeaning(digits, port);
    var field := "[" + host + "]:" + digits;
    assert FormatTarget(host, port) == field <==> port != 22 && Decimal(port) == digits by {
      SameBehind("[" + host + "]:", Decimal(port), digits);
    }
    OnePatternEntry(h, field + " " + key + ending, host, port, field, key, ending);
  }

  lemma SameBehind(front: string, a: string, b: string)
    ensures front + a == front + b <==> a == b
  {
    if front + a == front + b {
      assert (front + a)[|front|..] == a && (front + b)[|front|..] == b;
    }
  }

  lemma BracketedWord(host: string, digits: string)
    requires PlainHost(host) && Canonical(digits)
    ensures var field := "[" + host + "]:" + digits;
            FieldWord(field) && ',' !in field && !("|1|" <= field)
  {
    DigitsAreWord(digits);
  }

  lemma DigitsAreWord(digits: string)
    requires AllDigits(digits)
    ensures Spaceless(digits) && ',' !in digits
  {
    forall k | 0 <= k < |digits| ensures IsDigit(digits[k]) {
      EachIsDigit(digits, k);
    }
  }

  // ----- shared entries -----

  // Taking a host out of a list keeps the others, in order and separated by
  // commas, and the rest of the line.
  lemma SharedEntry(h: Hashing, first: string, host: string, last: string, key: string, ending: string)
    requires PlainHost(first) && PlainHost(host) && PlainHost(last) && first != host && last != host
    requires key != "" && Spaceless(key) && Ending(ending)
    ensures Removing(h, first + "," + host + "," + last + " " + key + ending, host, 22) ==
            Ok(Removal(first + "," + last + " " + key + ending, 1))
  {
    var field := first + "," + host + "," + last;
    var content := EntryLine(field, key, ending);
    SharedPatterns(h, first, host, last);
    PlainHostIsWord(host);
    SharedWord(first, host, last);
    EntryParts(field, key, ending);
    EntryEdited(h, host, field, key, ending);
    OneLine(h, host, content);
    assert Join([first, last], ',') == first + "," + last;
  }

  lemma SharedWord(first: string, host: string, last: string)
    requires PlainHost(first) && PlainHost(host) && PlainHost(last)
    ensures FieldWord(first + "," + host + "," + last)
  {
    PlainHostIsWord(first);
    PlainHostIsWord(host);
    PlainHostIsWord(last);
  }

  lemma SharedPatterns(h: Hashing, first: string, host: string, last: string)
    requires PlainHost(first) && PlainHost(host) && PlainHost(last) && first != host && last != host
    ensures Split(first + "," + host + "," + last, ',') == [first, host, last]
    ensures Retained(h, host, [first, host, last]) == [first, last]
  {
    SplitThree(first, host, last);
    RetainedMiddle(h, host, first, last);
  }

  lemma SplitThree(first: string, second: string, third: string)
    requires ',' !in first && ',' !in second && ',' !in third
    ensures Split(first + "," + second + "," + third, ',') == [first, second, third]
  {
    SplitPrepend(third, "", ',');
    SplitPrepend(second, third, ',');
    SplitPrepend(first, second + "," + third, ',');
    Regroup(first, ",", second, ",", third);
    Three(first, second, third);
  }

  lemma Regroup<T>(a: seq<T>, b: seq<T>, c: seq<T>, d: seq<T>, e: seq<T>)
    ensures a + b + (c + d + e) == a + b + c + d + e
  {
  }

  lemma Three<T>(a: T, b: T, c: T)
    ensures [a] + ([b] + [c]) == [a, b, c] == [a] + [b] + [c]
    ensures [a] + [] + [c] == [a, c]
  {
  }

  lemma RetainedMiddle(h: Hashing, host: string, first: string, last: string)
    requires !("|1|" <= first) && !("|1|" <= host) && !("|1|" <= last) && first != host && last != host
    ensures Retained(h, host, [first, host, last]) == [first, last]
  {
    RetainedOne(h, host, first);
    RetainedOne(h, host, host);
    RetainedOne(h, host, last);
    RetainedAppend(h, host, [first], [host]);
    RetainedAppend(h, host, [first] + [host], [last]);
    Three(first, host, last);
  }

  // ----- which lines have a host field -----

  // An entry behind a marker belongs to its host like any other.
  lemma MarkedEntry(h: Hashing, marker: string, host: string, key: string, ending: string)
    requires PlainHost(host) && Spaceless(marker) && key != "" && Spaceless(key) && Ending(ending)
    ensures Removing(h, "@" + marker + " " + host + " " + key + ending, host, 22) == Ok(Removal("", 1))
  {
    var body := "@" + marker + " " + host + " " + key;
    PlainHostIsWord(host);
    MarkedBody(marker, host, key);
    LineWithEnding(body, ending);
    MarkedBounds(marker, host, key);
    SoleHost(h, host, body, ending, |marker| + 2);
  }

  lemma MarkedBody(marker: string, host: string, key: string)
    requires Spaceless(host) && Spaceless(marker) && key != "" && Spaceless(key)
    ensures var body := "@" + marker + " " + host + " " + key;
            body != "" && '\n' !in body && body[|body| - 1] != '\r'
  {
    NoFeed("@" + marker, host);
    NoFeedEither("@" + marker + " " + host, key);
    var body := "@" + marker + " " + host + " " + key;
    assert body[|body| - 1] == key[|key| - 1];
  }

  // A line whose host field is just the host goes.
  lemma SoleHost(h: Hashing, host: string, body: string, ending: string, start: nat)
    requires PlainHost(host) && ValidHost(host) && Lines(body + ending) == [body + ending]
    requires SplitLineEnding(body + ending) == (body, ending)
    requires HostFieldBounds(body) == Some((start, start + |host|)) && body[start..start + |host|] == host
    ensures Removing(h, body + ending, host, 22) == Ok(Removal("", 1))
  {
    SoleHostEdited(h, host, body, start);
    OneLine(h, host, body + ending);
  }

  lemma SoleHostEdited(h: Hashing, host: string, body: string, start: nat)
    requires ',' !in host && !("|1|" <= host)
    requires HostFieldBounds(body) == Some((start, start + |host|)) && body[start..start + |host|] == host
    ensures EditLine(h, body, host) == Removed
  {
    SplitPrepend(host, "", ',');
    RetainedOne(h, host, host);
    PlainPattern(h, host, host);
  }

  lemma MarkedBounds(marker: string, host: string, key: string)
    requires FieldWord(host) && Spaceless(marker)
    ensures var (line, start) := ("@" + marker + " " + host + " " + key, |marker| + 2);
            HostFieldBounds(line) == Some((start, start + |host|)) && line[start..start + |host|] == host
  {
    var line := "@" + marker + " " + host + " " + key;
    var n := |marker| + 1;
    assert line[0] == '@' && line[n] == ' ' && line[n + 1] == host[0] && line[n + 1 + |host|] == ' ';
    assert line[0..n] == "@" + marker && line[n..n + 1] == " " && line[n + 1..n + 1 + |host|] == host;
    RunEndIs(line, 0, 0, true);
    RunEndIs(line, 0, n, false);
    RunEndIs(line, n, n + 1, true);
    RunEndIs(line, n + 1, n + 1 + |host|, false);
  }

  lemma NoFeedEither(front: string, key: string)
    requires '\n' !in front && Spaceless(key)
    ensures '\n' !in front + " " + key
  {
    assert forall k :: 0 <= k < |key| ==> key[k] != '\n';
  }

  lemma LineWithEnding(body: string, ending: string)
    requires body != "" && '\n' !in body && body[|body| - 1] != '\r' && Ending(ending)
    ensures Lines(body + ending) == [body + ending] && SplitLineEnding(body + ending) == (body, ending)
  {
    var line := body + ending;
    EndingIs(body, ending);
    if ending == "" {
      assert line == body;
      LinesOfOpen(line);
    } else {
      assert line[..|line| - 1] == body + ending[..|ending| - 1];
      assert Terminated(line);
      LinesPrepend(line, "");
      assert line + "" == line;
    }
  }

  // Blanks, tabs, form feeds and carriage returns set the fields apart.
  ghost predicate Gap(s: string) {
    forall k :: 0 <= k < |s| ==> s[k] in {' ', '\t', '\U{0C}', '\r'}
  }

  lemma IndentedEntry(h: Hashing, space: string, host: string, gap: string, key: string, ending: string)
    requires PlainHost(host) && Gap(space) && Gap(gap) && gap != ""
    requires key != "" && Spaceless(key) && Ending(ending)
    ensures Removing(h, space + host + gap + key + ending, host, 22) == Ok(Removal("", 1))
  {
    var body := space + host + gap + key;
    PlainHostIsWord(host);
    IndentedBody(space, host, gap, key);
    LineWithEnding(body, ending);
    IndentedBounds(space, host, gap, key);
    SoleHost(h, host, body, ending, |space|);
  }

  lemma IndentedBody(space: string, host: string, gap: string, key: string)
    requires Spaceless(host) && Gap(space) && Gap(gap) && key != "" && Spaceless(key)
    ensures var body := space + host + gap + key; body != "" && '\n' !in body && body[|body| - 1] != '\r'
  {
    var body := space + host + gap + key;
    assert body[|body| - 1] == key[|key| - 1];
    assert '\n' !in space && '\n' !in host && '\n' !in gap && '\n' !in key;
  }

  lemma IndentedBounds(space: string, host: string, gap: string, key: string)
    requires FieldWord(host) && Gap(space) && Gap(gap) && gap != ""
    ensures var (line, end) := (space + host + gap + key, |space| + |host|);
            HostFieldBounds(line) == Some((|space|, end)) && line[|space|..end] == host
  {
    var line := space + host + gap + key;
    var (n, end) := (|space|, |space| + |host|);
    assert line[0..n] == space && line[n..end] == host && line[n] == host[0] && line[end] == gap[0];
    RunEndIs(line, 0, n, true);
    RunEndIs(line, n, end, false);
  }

  // A comment belongs to nobody, whatever it says.
  lemma CommentIsKept(h: Hashing, space: string, text: string, host: string, port: nat)
    requires ValidHost(host) && Blank(space) && '\n' !in space && '\n' !in text
    ensures var content := space + "#" + text;
            && Removing(h, content, host, port) == Ok(Removal(content, 0))
            && Finding(h, content, host, port) == Ok(Query("", 0))
  {
    var content := space + "#" + text;
    var target := FormatTarget(host, port);
    LinesOfOpen(content);
    CommentHasNoField(space, text);
    OneLine(h, target, content);
  }

  lemma CommentHasNoField(space: string, text: string)
    requires Blank(space) && '\n' !in space && '\n' !in text
    ensures var (body, ending) := SplitLineEnding(space + "#" + text); HostFieldBounds(body) == None && ending == ""
  {
    var line := space + "#" + text;
    assert SplitLineEnding(line) == (line, "") by {
      assert '\n' !in line;
      assert |line| >= 2 ==> line[|line| - 2..][1] == line[|line| - 1];
    }
    assert line[0..|space|] == space && line[|space|] == '#';
    RunEndIs(line, 0, |space|, true);
  }

  // ----- longer files -----

  lemma {:induction false} LinesAppend(a: string, b: string)
    requires a == "" || a[|a| - 1] == '\n'
    ensures Lines(a + b) == Lines(a) + Lines(b)
    ensures a != "" ==> Lines(a) != []
  {
    if a == "" {
      EmptyLeft(b);
      EmptyLeft(Lines(b));
    } else {
      var rest := a[1..];
      LinesAppend(rest, b);
      AppendTail(a, b);
      if a[0] == '\n' {
        Associative(["\n"], Lines(rest), Lines(b));
      } else {
        assert |a| > 1;
        HeadReplaced(Lines(rest), Lines(b), [a[0]] + Lines(rest)[0]);
      }
    }
  }

  lemma EmptyLeft<T>(s: seq<T>)
    ensures [] + s == s
  {
  }

  lemma AppendTail<T>(a: seq<T>, b: seq<T>)
    requires a != []
    ensures (a + b)[1..] == a[1..] + b && (a + b)[0] == a[0]
  {
  }

  lemma HeadReplaced<T>(a: seq<T>, b: seq<T>, x: T)
    requires a != []
    ensures [x] + (a + b)[1..] == ([x] + a[1..]) + b && (a + b)[0] == a[0]
  {
  }

  lemma {:induction false} EditsAppend(h: Hashing, target: string, a: seq<string>, b: seq<string>)
    ensures EditedAll(h, target, a + b) == EditedAll(h, target, a) + EditedAll(h, target, b)
    ensures EditedCount(h, target, a + b) == EditedCount(h, target, a) + EditedCount(h, target, b)
  {
    if a == [] {
      EmptyLeft(b);
      EmptyLeft(EditedAll(h, target, b));
    } else {
      AppendTail(a, b);
      EditsAppend(h, target, a[1..], b);
      Associative([Edited(h, target, a[0])], EditedAll(h, target, a[1..]), EditedAll(h, target, b));
    }
  }

  // Two files one behind the other, the first ending in a line feed, are edited
  // each on its own: what an entry becomes does not depend on those around it.
  lemma RemovalDistributes(h: Hashing, a: string, b: string, host: string, port: nat)
    requires ValidHost(host) && (a == "" || a[|a| - 1] == '\n')
    ensures Removing(h, a + b, host, port).value.content ==
            Removing(h, a, host, port).value.content + Removing(h, b, host, port).value.content
    ensures Removing(h, a + b, host, port).value.removed ==
            Removing(h, a, host, port).value.removed + Removing(h, b, host, port).value.removed
  {
    var target := FormatTarget(host, port);
    LinesAppend(a, b);
    EditsAppend(h, target, Lines(a), Lines(b));
    FlattenAppend(EditedAll(h, target, Lines(a)), EditedAll(h, target, Lines(b)));
  }

  // ----- what is asked for, and what is reported -----

  // A host is refused, and nothing done, exactly if it is empty or holds a control character.
  lemma HostIsChecked(h: Hashing, content: string, host: string, port: nat)
    ensures var valid := host != "" && forall k :: 0 <= k < |host| ==> ' ' <= host[k] < '\U{7F}' || '\U{9F}' < host[k];
            && (Removing(h, content, host, port) == Err("invalid known_hosts host") <==> !valid)
            && (Finding(h, content, host, port) == Err("invalid known_hosts host") <==> !valid)
  {
  }

  // Each line found adds a heading with its number, and the line without its
  // ending.
  lemma ReportEntry(target: string, lines: seq<string>, numbers: seq<nat>, n: nat)
    requires 1 <= n <= |lines|
    ensures Report(target, lines, []) == ""
    ensures var body := SplitLineEnding(lines[n - 1]).0;
            Report(target, lines, numbers + [n]) ==
            Report(target, lines, numbers) + ("# Host " + target + " found: line " + Decimal(n) + "\n" + (body + "\n"))
  {
    ReportSnoc(target, lines, numbers, n);
  }
}
