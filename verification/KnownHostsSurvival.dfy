// Removing one endpoint and what it does to the others.
module KnownHostsSurvival {
  import opened Options
  import opened Sequences
  import opened KnownHostsText
  import opened KnownHosts
  import opened KnownHostsTheorems

  // No pattern that goes with `target` also stands for `other`.
  predicate Separate(h: Hashing, target: string, other: string, completeLine: string) {
    var host := HostOf(Fields(completeLine));
    host.Some? ==>
      forall p :: p in Split(host.value, ',') && PatternMatches(h, target, p) ==> !PatternMatches(h, other, p)
  }

  // The edit leaves it as it was whether the line stands for `other`: what
  // stays is read as the host field, or the field read instead agrees with it.
  predicate Survives(h: Hashing, target: string, other: string, completeLine: string) {
    var fields := Fields(completeLine);
    FieldsMatch(h, target, fields) && Stay(h, target, fields) != [] && Misread(fields, Printed(h, target, fields)) ==>
      (HostMatches(h, other, Exposed(fields, Printed(h, target, fields))) <==>
       AnyMatches(h, other, Stay(h, target, fields)))
  }

  lemma OtherStays(h: Hashing, target: string, other: string, fields: seq<string>)
    requires FieldsMatch(h, target, fields)
    requires forall p :: p in Split(HostOf(fields).value, ',') && PatternMatches(h, target, p) ==>
               !PatternMatches(h, other, p)
    ensures FieldsMatch(h, other, fields) <==> AnyMatches(h, other, Stay(h, target, fields))
  {
    var patterns, stay := Split(HostOf(fields).value, ','), Stay(h, target, fields);
    RetainedMeaning(h, target, patterns);
    if AnyMatches(h, other, patterns) {
      var i :| 0 <= i < |patterns| && PatternMatches(h, other, patterns[i]);
      assert patterns[i] in stay;
      var k :| 0 <= k < |stay| && stay[k] == patterns[i];
    }
    if AnyMatches(h, other, stay) {
      var k :| 0 <= k < |stay| && PatternMatches(h, other, stay[k]);
      var i :| 0 <= i < |patterns| && patterns[i] == stay[k];
    }
  }

  lemma OtherAfterEdit(h: Hashing, target: string, other: string, completeLine: string)
    requires Separate(h, target, other, completeLine)
    ensures (Matching(h, other, Edited(h, target, completeLine)) <==> Matching(h, other, completeLine)) <==>
            Survives(h, target, other, completeLine)
  {
    var fields := Fields(completeLine);
    EditedFields(h, target, completeLine);
    if FieldsMatch(h, target, fields) {
      AfterEdit(h, target, other, completeLine);
      OtherStays(h, target, other, fields);
    }
  }

  // When every matching line keeps matching, the result has no fewer matching
  // lines; as many only when no line was gained, and then they are the images.
  lemma {:induction false} SelectAfter(h: Hashing, target: string, other: string, lines: seq<string>)
    requires forall l :: l in lines && Matching(h, other, l) ==> Matching(h, other, Edited(h, target, l))
    ensures var (after, images) := (Select(h, other, EditedAll(h, target, lines)),
                                    EditedAll(h, target, Select(h, other, lines)));
            if forall l :: l in lines && Matching(h, other, Edited(h, target, l)) ==> Matching(h, other, l)
            then images == after
            else |images| < |after|
  {
    if lines == [] {
    } else {
      var rest := lines[1..];
      assert lines == [lines[0]] + rest;
      SelectAfter(h, target, other, rest);
      assert EditedAll(h, target, lines)[1..] == EditedAll(h, target, rest);
      if Matching(h, other, lines[0]) {
        assert Select(h, other, lines)[1..] == Select(h, other, rest);
      } else {
        assert Select(h, other, lines) == Select(h, other, rest);
      }
    }
  }

  // If the images of the matching lines are the matching lines of the result,
  // every image matches.
  lemma {:induction false} ImagesMatch(h: Hashing, target: string, other: string, lines: seq<string>, line: string)
    requires line in lines && Matching(h, other, line)
    ensures Edited(h, target, line) in EditedAll(h, target, Select(h, other, lines))
  {
    var rest := lines[1..];
    if Matching(h, other, lines[0]) {
      assert Select(h, other, lines)[0] == lines[0] && Select(h, other, lines)[1..] == Select(h, other, rest);
    } else {
      assert Select(h, other, lines) == Select(h, other, rest);
    }
    if line != lines[0] {
      ImagesMatch(h, target, other, rest, line);
    }
  }

  lemma {:induction false} SelectedMatch(h: Hashing, other: string, lines: seq<string>, line: string)
    requires line in Select(h, other, lines)
    ensures Matching(h, other, line)
  {
    if line == lines[0] && Matching(h, other, lines[0]) {
    } else {
      SelectedMatch(h, other, lines[1..], line);
    }
  }

  // The other endpoints survive a removal: for an endpoint none of whose
  // patterns go, the lines that match it afterwards are the edited images of
  // the lines that matched it before, in order, exactly when every line leaves
  // it alone.
  lemma OthersSurvive(h: Hashing, target: string, other: string, content: string)
    requires forall l :: l in Lines(content) ==> Separate(h, target, other, l)
    ensures Select(h, other, Lines(Without(h, target, content))) ==
            EditedAll(h, target, Select(h, other, Lines(content))) <==>
            forall l :: l in Lines(content) ==> Survives(h, target, other, l)
  {
    var lines := Lines(content);
    var pieces := EditedAll(h, target, lines);
    LinesOfResult(h, target, content);
    SelectNonEmpty(h, other, pieces);
    forall l | l in lines
      ensures (Matching(h, other, Edited(h, target, l)) <==> Matching(h, other, l)) <==>
              Survives(h, target, other, l)
    {
      OtherAfterEdit(h, target, other, l);
    }
    if forall l :: l in lines ==> Survives(h, target, other, l) {
      SelectAfter(h, target, other, lines);
    }
    if Select(h, other, pieces) == EditedAll(h, target, Select(h, other, lines)) {
      forall l | l in lines && Matching(h, other, l) ensures Matching(h, other, Edited(h, target, l)) {
        ImagesMatch(h, target, other, lines, l);
        SelectedMatch(h, other, pieces, Edited(h, target, l));
      }
      SelectAfter(h, target, other, lines);
    }
  }

  // The condition a reader of the file can check at a glance: the text that
  // stays is not empty and, on a line without a marker, starts neither a
  // marker nor a comment.
  predicate LeavesVisibleText(h: Hashing, target: string, completeLine: string) {
    var (fields, text) := (Fields(completeLine), Printed(h, target, Fields(completeLine)));
    FieldsMatch(h, target, fields) && Stay(h, target, fields) != [] ==>
      text != "" && (HostIndex(fields) == Some(0) ==> !StartsWith(text, '@') && !StartsWith(text, '#'))
  }

  lemma SafeTextSurvives(h: Hashing, target: string, other: string, completeLine: string)
    requires LeavesVisibleText(h, target, completeLine)
    ensures Survives(h, target, other, completeLine)
  {
  }

  // So the others survive in every file in which each shared field leaves such
  // text.
  lemma SafeSurvival(h: Hashing, target: string, other: string, content: string)
    requires forall l :: l in Lines(content) ==> Separate(h, target, other, l) && LeavesVisibleText(h, target, l)
    ensures Select(h, other, Lines(Without(h, target, content))) ==
            EditedAll(h, target, Select(h, other, Lines(content)))
  {
    forall l | l in Lines(content) ensures Survives(h, target, other, l) {
      assert LeavesVisibleText(h, target, l);
      SafeTextSurvives(h, target, other, l);
    }
    OthersSurvive(h, target, other, content);
  }

  // ----- inputs on which the promises fail -----

  // A line whose host field holds two patterns, the first of them `target`.
  lemma ExampleLine(h: Hashing, target: string, second: string, key: string)
    requires target != "" && !("|1|" <= target) && !StartsWith(target, '@') && !StartsWith(target, '#')
    requires key != "" && Spaceless(target) && Spaceless(second) && Spaceless(key)
    requires ',' !in target && ',' !in second && !PatternMatches(h, target, second)
    ensures var line := target + "," + second + " " + key;
            && Fields(line) == [target + "," + second, key] && Lines(line) == [line]
            && HostIndex(Fields(line)) == Some(0) && FieldsMatch(h, target, Fields(line))
            && Split(HostOf(Fields(line)).value, ',') == [target, second]
            && Stay(h, target, Fields(line)) == [second] && Printed(h, target, Fields(line)) == second
  {
    var host := target + "," + second;
    var line := host + " " + key;
    TwoFields(host, key);
    SplitPrepend(target, second, ',');
    SplitPrepend(second, "", ',');
    assert [target] + [second] == [target, second];
    assert PatternMatches(h, target, [target, second][0]);
    assert [target, second][..1] == [target] && [target][..0] == [];
    assert Retained(h, target, [target]) == [];
    assert Retained(h, target, [target, second]) == [] + [second];
    assert host[0] == target[0];
  }

  lemma TwoFields(first: string, second: string)
    requires first != "" && second != "" && Spaceless(first) && Spaceless(second)
    ensures Fields(first + " " + second) == [first, second]
    ensures Lines(first + " " + second) == [first + " " + second]
  {
    FieldsOfWord(first);
    FieldsOfWord(second);
    FieldsOfBlank(" ");
    FieldsAppend(" ", second);
    FieldsAppend(first, " " + second);
    assert first + (" " + second) == first + " " + second;
    LinesOfOpen(first + " " + second);
  }

  lemma OnePattern(h: Hashing, target: string)
    requires ',' !in target && !("|1|" <= target)
    ensures Split(target, ',') == [target] && AnyMatches(h, target, [target])
  {
    SplitPrepend(target, "", ',');
    assert PatternMatches(h, target, [target][0]);
  }

  // A host field that is left empty vanishes, and the next field is read as
  // the host: removing `a` from the line `a, a` does not remove it.
  lemma EmptyPatternExample(h: Hashing)
    ensures MatchingLines(h, "a", Lines(Without(h, "a", "a, a"))) != []
  {
    ExampleLine(h, "a", "", "a");
    OnePattern(h, "a");
    var line := "a" + "," + "" + " " + "a";
    assert line == "a, a" && Fields(line)[1..] == ["a"];
    assert Lines(line)[0] == line && Reappears(h, "a", line);
    RemovalIsComplete(h, "a", line);
  }

  // A field that is left starting with `@` becomes a marker.
  lemma MarkerExample(h: Hashing)
    ensures MatchingLines(h, "a", Lines(Without(h, "a", "a,@m a"))) != []
  {
    ExampleLine(h, "a", "@m", "a");
    OnePattern(h, "a");
    var line := "a" + "," + "@m" + " " + "a";
    assert line == "a,@m a";
    ReadAsMarker(h, "a", line);
  }

  lemma ReadAsMarker(h: Hashing, target: string, line: string)
    requires Lines(line) == [line] && HostIndex(Fields(line)) == Some(0)
    requires |Fields(line)| == 2 && Fields(line)[1] == target && FieldsMatch(h, target, Fields(line))
    requires Stay(h, target, Fields(line)) != [] && StartsWith(Printed(h, target, Fields(line)), '@')
    requires Split(target, ',') == [target] && AnyMatches(h, target, [target])
    ensures MatchingLines(h, target, Lines(Without(h, target, line))) != []
  {
    assert Lines(line)[0] == line && Reappears(h, target, line);
    RemovalIsComplete(h, target, line);
  }

  // A field that is left starting with `#` turns the line into a comment, and
  // the endpoint that stayed in it is lost.
  lemma CommentExample(h: Hashing)
    ensures var content := "a,#b k";
            && (forall l :: l in Lines(content) ==> Separate(h, "a", "#b", l))
            && Select(h, "#b", Lines(Without(h, "a", content))) !=
               EditedAll(h, "a", Select(h, "#b", Lines(content)))
  {
    ExampleLine(h, "a", "#b", "k");
    OnePattern(h, "#b");
    var line := "a" + "," + "#b" + " " + "k";
    assert line == "a,#b k";
    LostToComment(h, line);
    LossIsVisible(h, "a", "#b", line);
  }

  lemma LossIsVisible(h: Hashing, target: string, other: string, line: string)
    requires Lines(line) == [line] && Separate(h, target, other, line) && !Survives(h, target, other, line)
    ensures forall l :: l in Lines(line) ==> Separate(h, target, other, l)
    ensures Select(h, other, Lines(Without(h, target, line))) != EditedAll(h, target, Select(h, other, Lines(line)))
  {
    assert Lines(line)[0] == line;
    OthersSurvive(h, target, other, line);
  }

  lemma LostToComment(h: Hashing, line: string)
    requires HostIndex(Fields(line)) == Some(0)
    requires FieldsMatch(h, "a", Fields(line)) && Stay(h, "a", Fields(line)) == ["#b"]
    requires Printed(h, "a", Fields(line)) == "#b"
    ensures !Survives(h, "a", "#b", line)
  {
    var stay := Stay(h, "a", Fields(line));
    assert PatternMatches(h, "#b", stay[0]);
    assert AnyMatches(h, "#b", stay);
  }
}
