// Cutting a known_hosts file into lines, a line into fields and a host field
// into patterns, and putting the pieces together again.
module KnownHostsText {
  import opened Sequences

  // ----- `split` and `join` -----

  function Split(s: string, separator: char): (parts: seq<string>)
    ensures parts != []
  {
    if s == "" then [""]
    else
      var rest := Split(s[1..], separator);
      if s[0] == separator then [""] + rest else [[s[0]] + rest[0]] + rest[1..]
  }

  function Join(parts: seq<string>, separator: char): string {
    if parts == [] then ""
    else if |parts| == 1 then parts[0]
    else parts[0] + [separator] + Join(parts[1..], separator)
  }

  lemma {:induction false} JoinSplit(s: string, separator: char)
    ensures Join(Split(s, separator), separator) == s
  {
    if s == "" {
    } else {
      JoinSplit(s[1..], separator);
      var rest := Split(s[1..], separator);
      if s[0] == separator {
        assert ([""] + rest)[1..] == rest;
      } else {
        assert ([[s[0]] + rest[0]] + rest[1..])[1..] == rest[1..];
      }
    }
  }

  lemma {:induction false} SplitPrepend(part: string, more: string, separator: char)
    requires separator !in part
    ensures Split(part, separator) == [part]
    ensures Split(part + [separator] + more, separator) == [part] + Split(more, separator)
  {
    if part == "" {
      assert ("" + [separator] + more)[1..] == more;
    } else {
      SplitPrepend(part[1..], more, separator);
      assert (part + [separator] + more)[1..] == part[1..] + [separator] + more;
      assert [part[0]] + part[1..] == part;
    }
  }

  ghost predicate NoneContains(parts: seq<string>, separator: char) {
    forall i :: 0 <= i < |parts| ==> separator !in parts[i]
  }

  lemma {:induction false} SplitJoin(parts: seq<string>, separator: char)
    requires parts != [] && NoneContains(parts, separator)
    ensures Split(Join(parts, separator), separator) == parts
  {
    if |parts| == 1 {
      SplitPrepend(parts[0], "", separator);
    } else {
      SplitJoin(parts[1..], separator);
      SplitPrepend(parts[0], Join(parts[1..], separator), separator);
    }
  }

  lemma {:induction false} SplitRemovesSeparator(s: string, separator: char)
    ensures NoneContains(Split(s, separator), separator)
  {
    if s == "" {
    } else {
      SplitRemovesSeparator(s[1..], separator);
    }
  }

  predicate StartsWith(s: string, c: char) {
    s != "" && s[0] == c
  }

  // ----- ASCII whitespace and fields -----

  predicate IsAsciiWhitespace(c: char) {
    c == ' ' || c == '\t' || c == '\n' || c == '\U{0C}' || c == '\r'
  }

  ghost predicate Spaceless(s: string) {
    forall k :: 0 <= k < |s| ==> !IsAsciiWhitespace(s[k])
  }

  ghost predicate Blank(s: string) {
    forall k :: 0 <= k < |s| ==> IsAsciiWhitespace(s[k])
  }

  // The end of the run of whitespace (or of other characters) from `i` on.
  function RunEnd(s: string, i: nat, whitespace: bool): (end: nat)
    requires i <= |s|
    ensures i <= end <= |s|
    decreases |s| - i
  {
    if i < |s| && IsAsciiWhitespace(s[i]) == whitespace then RunEnd(s, i + 1, whitespace) else i
  }

  lemma {:induction false} RunEndMeaning(s: string, i: nat, whitespace: bool)
    requires i <= |s|
    ensures var end := RunEnd(s, i, whitespace);
            && (if whitespace then Blank(s[i..end]) else Spaceless(s[i..end]))
            && (end < |s| ==> IsAsciiWhitespace(s[end]) != whitespace)
    decreases |s| - i
  {
    var end := RunEnd(s, i, whitespace);
    if i == end {
    } else {
      RunEndMeaning(s, i + 1, whitespace);
      assert s[i..end] == [s[i]] + s[i + 1..end];
    }
  }

  lemma {:induction false} RunEndIs(s: string, i: nat, end: nat, whitespace: bool)
    requires i <= end <= |s|
    requires if whitespace then Blank(s[i..end]) else Spaceless(s[i..end])
    requires end < |s| ==> IsAsciiWhitespace(s[end]) != whitespace
    ensures RunEnd(s, i, whitespace) == end
    decreases end - i
  {
    if i == end {
    } else {
      assert s[i] == s[i..end][0];
      assert s[i + 1..end] == s[i..end][1..];
      RunEndIs(s, i + 1, end, whitespace);
    }
  }

  // The whitespace-separated fields of a text.
  function Fields(s: string): (fields: seq<string>)
    ensures s != "" && !IsAsciiWhitespace(s[0]) ==> fields != []
  {
    if s == "" then []
    else
      var rest := Fields(s[1..]);
      if IsAsciiWhitespace(s[0]) then rest
      else if |s| == 1 || IsAsciiWhitespace(s[1]) then [[s[0]]] + rest
      else [[s[0]] + rest[0]] + rest[1..]
  }

  lemma {:induction false} FieldsOfBlank(s: string)
    requires Blank(s)
    ensures Fields(s) == []
  {
    if s == "" {
    } else {
      FieldsOfBlank(s[1..]);
    }
  }

  lemma {:induction false} FieldsOfWord(s: string)
    requires s != "" && Spaceless(s)
    ensures Fields(s) == [s]
  {
    assert !IsAsciiWhitespace(s[0]);
    if |s| == 1 {
      assert s[1..] == "" && s == [s[0]];
    } else {
      assert !IsAsciiWhitespace(s[1]);
      FieldsOfWord(s[1..]);
      assert [s[0]] + s[1..] == s;
    }
  }

  // Two texts that meet at whitespace keep their fields apart.
  ghost predicate Apart(a: string, b: string) {
    || a == "" || b == ""
    || IsAsciiWhitespace(a[|a| - 1]) || IsAsciiWhitespace(b[0])
  }

  lemma {:induction false} FieldsAppend(a: string, b: string)
    requires Apart(a, b)
    ensures Fields(a + b) == Fields(a) + Fields(b)
  {
    if a == "" {
      assert a + b == b;
    } else if b == "" {
      assert a + b == a;
    } else {
      assert (a + b)[1..] == a[1..] + b;
      FieldsAppend(a[1..], b);
      assert |a| > 1 ==> (a + b)[1] == a[1];
      assert |a| == 1 ==> (a + b)[1] == b[0];
    }
  }

  // A word between two texts, each apart from it.
  lemma FieldsAround(before: string, word: string, after: string)
    requires Spaceless(word)
    requires before == "" || IsAsciiWhitespace(before[|before| - 1])
    requires after == "" || IsAsciiWhitespace(after[0])
    ensures Fields(before + word + after) == Fields(before) + (if word == "" then [] else [word]) + Fields(after)
  {
    FieldsAppend(before, word + after);
    FieldsAppend(word, after);
    assert before + word + after == before + (word + after);
    if word != "" {
      FieldsOfWord(word);
    }
    Associative(Fields(before), Fields(word), Fields(after));
  }

  // ----- `split_inclusive('\n')` -----

  function Lines(s: string): seq<string> {
    if s == "" then []
    else
      var rest := Lines(s[1..]);
      if s[0] == '\n' then ["\n"] + rest
      else if rest == [] then [[s[0]]]
      else [[s[0]] + rest[0]] + rest[1..]
  }

  // A line with its line feed, and nothing after it.
  ghost predicate Terminated(line: string) {
    line != "" && line[|line| - 1] == '\n' && '\n' !in line[..|line| - 1]
  }

  // Pieces of a file in order: lines, some perhaps edited away to nothing, the
  // last one perhaps without its line feed.
  ghost predicate Pieces(parts: seq<string>) {
    if parts == [] then true
    else if |parts| == 1 then '\n' !in parts[0] || Terminated(parts[0])
    else (parts[0] == "" || Terminated(parts[0])) && Pieces(parts[1..])
  }

  function NonEmpty(parts: seq<string>): seq<string> {
    if parts == [] then []
    else (if parts[0] == "" then [] else [parts[0]]) + NonEmpty(parts[1..])
  }

  lemma {:induction false} LinesCover(s: string)
    ensures Flatten(Lines(s)) == s
    ensures Pieces(Lines(s))
    ensures forall i :: 0 <= i < |Lines(s)| ==> Lines(s)[i] != ""
  {
    if s == "" {
    } else {
      LinesCover(s[1..]);
      var rest := Lines(s[1..]);
      if s[0] == '\n' {
        assert (["\n"] + rest)[1..] == rest;
      } else if rest != [] {
        var first := [s[0]] + rest[0];
        assert ([first] + rest[1..])[1..] == rest[1..];
        if Terminated(rest[0]) {
          assert first[..|first| - 1] == [s[0]] + rest[0][..|rest[0]| - 1];
        }
      }
    }
  }

  lemma {:induction false} LinesPrepend(line: string, more: string)
    requires Terminated(line)
    ensures Lines(line + more) == [line] + Lines(more)
  {
    assert (line + more)[1..] == line[1..] + more;
    if |line| == 1 {
      assert line == "\n" && line[1..] + more == more;
    } else {
      assert line[0] == line[..|line| - 1][0];
      assert line[1..][..|line| - 2] == line[1..|line| - 1];
      LinesPrepend(line[1..], more);
      assert [line[0]] + line[1..] == line;
    }
  }

  lemma {:induction false} LinesOfOpen(line: string)
    requires line != "" && '\n' !in line
    ensures Lines(line) == [line]
  {
    if |line| == 1 {
      assert line[1..] == "" && line == [line[0]];
    } else {
      LinesOfOpen(line[1..]);
      assert [line[0]] + line[1..] == line;
    }
  }

  // Cutting the joined pieces into lines again finds the pieces that are left.
  lemma {:induction false} LinesOfPieces(parts: seq<string>)
    requires Pieces(parts)
    ensures Lines(Flatten(parts)) == NonEmpty(parts)
  {
    if parts == [] {
    } else {
      var first, rest := parts[0], parts[1..];
      LinesOfPieces(rest);
      if Terminated(first) {
        LinesPrepend(first, Flatten(rest));
      } else if first == "" {
        assert first + Flatten(rest) == Flatten(rest);
      } else {
        assert rest == [] && first + Flatten(rest) == first;
        LinesOfOpen(first);
      }
    }
  }
}
