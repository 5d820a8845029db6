// The benchmark's commands and lines as they look on the wire.
module PerfStreamOperations {
  import opened Options
  import opened Sequences
  import opened KnownHostsText
  import opened Decimals
  import opened PerfStream

  // ----- numbers -----

  // Digits are determined by how many they are and the value they have.
  lemma {:induction false} SameDigits(s: string, t: string)
    requires AllDigits(s) && AllDigits(t) && |s| == |t| && ValueOf(s) == ValueOf(t)
    ensures s == t
  {
    if s == "" {
    } else {
      var (front, other) := (s[..|s| - 1], t[..|t| - 1]);
      SameDigits(front, other);
      assert s == front + [s[|s| - 1]] && t == other + [t[|t| - 1]];
    }
  }

  lemma {:induction false} ZerosInFront(n: nat, digits: string)
    requires AllDigits(digits)
    ensures AllDigits(Zeros(n) + digits) && ValueOf(Zeros(n) + digits) == ValueOf(digits)
  {
    if digits == "" {
      EmptyRight(Zeros(n));
      ZerosAreZero(n);
    } else {
      var front := digits[..|digits| - 1];
      ZerosInFront(n, front);
      assert (Zeros(n) + digits)[..n + |digits| - 1] == Zeros(n) + front;
    }
  }

  lemma {:induction false} ZerosAreZero(n: nat)
    ensures AllDigits(Zeros(n)) && ValueOf(Zeros(n)) == 0
  {
    if n == 0 {
    } else {
      ZerosAreZero(n - 1);
      assert Zeros(n)[..n - 1] == Zeros(n - 1);
    }
  }

  // Five digits are what their value is padded to.
  lemma PaddedExactly(digits: string)
    requires AllDigits(digits) && |digits| == 5
    ensures Padded(ValueOf(digits)) == digits
  {
    var n := ValueOf(digits);
    ValueBelow(digits);
    assert Power10(5) == 100000;
    DecimalLength(n, 5);
    DecimalValue(n);
    ZerosInFront(5 - |Decimal(n)|, Decimal(n));
    assert |Decimal(n)| == 5 ==> Zeros(0) + Decimal(n) == Decimal(n);
    SameDigits(Padded(n), digits);
  }

  lemma {:induction false} ValueBelow(digits: string)
    requires AllDigits(digits)
    ensures ValueOf(digits) < Power10(|digits|)
  {
    if digits == "" {
    } else {
      ValueBelow(digits[..|digits| - 1]);
    }
  }

  // What is read as a number: digits for it, or a plus sign and digits, if it
  // fits 64 bits.
  lemma ParsedNumber(s: string, n: nat)
    ensures ParseUsize(s) == Some(n) <==>
            && n < 18446744073709551616
            && exists digits: string ::
                 digits != "" && AllDigits(digits) && ValueOf(digits) == n && (s == digits || s == "+" + digits)
  {
    if ParseUsize(s) == Some(n) {
      var digits := if StartsWith(s, '+') then s[1..] else s;
      assert s == digits || s == "+" + digits;
    }
    if digits: string :|
         digits != "" && AllDigits(digits) && ValueOf(digits) == n && (s == digits || s == "+" + digits)
    {
      EachIsDigit(digits, 0);
      assert s != digits ==> s[1..] == digits;
    }
  }

  // ----- commands -----

  // 1 to 24 letters, digits, hyphens and underscores; 1 to 12000 lines of 48 to
  // 160 characters.
  ghost predicate CaseId(caseId: string) {
    && 1 <= |caseId| <= 24
    && forall i :: 0 <= i < |caseId| ==>
         || 'a' <= caseId[i] <= 'z' || 'A' <= caseId[i] <= 'Z' || '0' <= caseId[i] <= '9'
         || caseId[i] == '-' || caseId[i] == '_'
  }

  lemma ValidExactly(r: PerfStreamRequest)
    ensures IsValidPerfCaseId(r.caseId) <==> CaseId(r.caseId)
    ensures IsValid(r) <==> CaseId(r.caseId) && 1 <= r.lines <= 12000 && 48 <= r.lineWidth <= 160
  {
  }

  // A command is its words, however they are set apart.
  lemma ParsedCommand(text: string, command: PerfCommand)
    ensures ParsePerfCommand(Some(text)) == Some(command) <==>
            match command
            case Run(caseId) => CaseId(caseId) && Fields(text) == ["ltty-perf-run", caseId]
            case Prepare(r) =>
              && CaseId(r.caseId) && 1 <= r.lines <= 12000 && 48 <= r.lineWidth <= 160
              && |Fields(text)| == 4 && Fields(text)[..2] == ["ltty-perf-prepare", r.caseId]
              && ParseUsize(Fields(text)[2]) == Some(r.lines) && ParseUsize(Fields(text)[3]) == Some(r.lineWidth)
    ensures ParsePerfCommand(None) == None
  {
    CommandWords();
  }

  // ----- lines -----

  // The beginning of a line, with its number.
  lemma PrefixExactly(r: PerfStreamRequest, digits: string)
    requires AllDigits(digits) && |digits| == 5
    ensures Prefix(r, ValueOf(digits)) == "LTTY_PERF_" + r.caseId + "_" + digits + " "
  {
    PaddedExactly(digits);
  }

  // A line: its beginning, the letter up to the width, and the line end.
  ghost predicate IsLine(line: string, prefix: string, width: nat) {
    && |prefix| <= width && |line| == width + 2
    && line[..|prefix|] == prefix
    && (forall i :: |prefix| <= i < width ==> line[i] == 'X')
    && line[width] == '\r' && line[width + 1] == '\n'
  }

  lemma LineIsLine(prefix: string, width: nat)
    requires |prefix| <= width
    ensures IsLine(Line(prefix, width), prefix, width)
  {
    var filler := Filler(width - |prefix|);
    Associative(prefix, filler, "\r\n");
    assert Line(prefix, width)[..|prefix|] == prefix;
  }

  lemma {:induction false} LinesAre(prefix: nat -> string, width: nat, n: nat)
    requires Fit(prefix, width, n)
    ensures forall i: nat :: i < n ==> IsLine(PerfStream.Lines(prefix, width, n)[i], prefix(i), width)
  {
    if n == 0 {
    } else {
      LinesAre(prefix, width, n - 1);
      LineIsLine(prefix(n - 1), width);
    }
  }

  // The stream is made of its lines, the first numbered zero, in order.
  lemma StreamExactly(r: PerfStreamRequest) returns (lines: seq<string>)
    requires IsValid(r)
    ensures Stream(r) == Flatten(lines) && |lines| == r.lines
    ensures forall i: nat :: i < r.lines ==> IsLine(lines[i], Prefix(r, i), r.lineWidth)
  {
    PrefixesFit(r);
    lines := PerfStream.Lines(PrefixOf(r), r.lineWidth, r.lines);
    LinesAre(PrefixOf(r), r.lineWidth, r.lines);
    forall i: nat | i < r.lines ensures IsLine(lines[i], Prefix(r, i), r.lineWidth) {
      assert IsLine(lines[i], PrefixOf(r)(i), r.lineWidth);
    }
  }
}
