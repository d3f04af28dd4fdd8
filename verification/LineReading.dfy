/** What the scan for the computation reads in a body, said of its characters: where lines
    end, what white space is dropped, and which lines are headings and fences. */
module LineReading {
  import opened StringOrder
  import opened CanonicalText
  import opened Attestation

  // ----- Lines

  // A line with its ending: a line feed, or a carriage return and a line feed; the last one needs none.
  ghost predicate IsLine(piece: string, line: string, last: bool) {
    && '\n' !in line
    && (|| (piece == line + ['\n'] && (line == [] || line[|line| - 1] != '\r'))
        || piece == line + ['\r', '\n']
        || (last && piece == line && line != []))
  }

  // The text is these lines with their endings, one after the other.
  ghost predicate ReadsAs(text: string, lines: seq<string>)
    decreases |lines|
  {
    if lines == [] then text == []
    else exists piece, rest :: text == piece + rest && IsLine(piece, lines[0], rest == []) && ReadsAs(rest, lines[1..])
  }

  lemma FirstPiece(head: string)
    requires '\n' !in head
    ensures IsLine(head + ['\n'], StripReturn(head), false)
  {
    if head != [] && head[|head| - 1] == '\r' {
      assert head + ['\n'] == StripReturn(head) + ['\r', '\n'];
    }
  }

  lemma ReadsBehind(piece: string, line: string, rest: string, lines: seq<string>)
    requires IsLine(piece, line, rest == []) && ReadsAs(rest, lines)
    ensures ReadsAs(piece + rest, [line] + lines)
  {
    assert ([line] + lines)[1..] == lines;
  }

  lemma FirstLine(line: string, ending: string, rest: string)
    requires ending == ['\n'] || ending == ['\r', '\n']
    requires IsLine(line + ending, line, rest == []) && (ending == ['\n'] ==> line == [] || line[|line| - 1] != '\r')
    ensures Lines(line + ending + rest) == [line] + Lines(rest)
  {
    var (text, head) := (line + ending + rest, line + ending[..|ending| - 1]);
    assert text == head + (['\n'] + rest);
    UpToStops(head, '\n', ['\n'] + rest);
    assert text[|head| + 1..] == rest && StripReturn(head) == line;
  }

  lemma LinesBehind(piece: string, line: string, rest: string)
    requires IsLine(piece, line, rest == [])
    ensures Lines(piece + rest) == [line] + Lines(rest)
  {
    if piece == line {
      assert piece + rest == piece;
      OneLine(piece);
    } else {
      FirstLine(line, piece[|line|..], rest);
      assert piece == line + piece[|line|..];
    }
  }

  lemma LastLineRead(text: string)
    requires text != [] && '\n' !in text
    ensures ReadsAs(text, Lines(text))
  {
    OneLine(text);
    ReadsBehind(text, text, [], []);
    assert text + [] == text && [text] + [] == [text];
  }

  lemma FirstLineRead(head: string, rest: string)
    requires '\n' !in head && ReadsAs(rest, Lines(rest))
    ensures ReadsAs(head + ['\n'] + rest, Lines(head + ['\n'] + rest))
  {
    FirstPiece(head);
    LinesBehind(head + ['\n'], StripReturn(head), rest);
    ReadsBehind(head + ['\n'], StripReturn(head), rest, Lines(rest));
  }

  lemma SplitAtFeed(text: string)
    requires |UpTo(text, '\n')| < |text|
    ensures text == UpTo(text, '\n') + ['\n'] + text[|UpTo(text, '\n')| + 1..]
  {
    UpToIsPrefix(text, '\n');
  }

  // The lines of a text are these.
  lemma {:induction false} LinesAreRead(text: string)
    ensures ReadsAs(text, Lines(text))
    decreases |text|
  {
    var head := UpTo(text, '\n');
    UpToIsPrefix(text, '\n');
    if |head| < |text| {
      var rest := text[|head| + 1..];
      LinesAreRead(rest);
      FirstLineRead(head, rest);
      SplitAtFeed(text);
    } else if text != [] {
      LastLineRead(text);
    }
  }

  // They are the only ones: the lines of a text are told by its line ends.
  lemma {:induction false} LinesIff(text: string, lines: seq<string>)
    ensures Lines(text) == lines <==> ReadsAs(text, lines)
    decreases |lines|
  {
    LinesAreRead(text);
    if ReadsAs(text, lines) && lines != [] {
      var piece, rest :| text == piece + rest && IsLine(piece, lines[0], rest == []) && ReadsAs(rest, lines[1..]);
      LinesIff(rest, lines[1..]);
      LinesBehind(piece, lines[0], rest);
      assert lines == [lines[0]] + lines[1..];
    }
  }

  // ----- Trimming

  // The text between the white space at both ends.
  ghost predicate TrimsTo(s: string, t: string) {
    && (t != [] ==> !IsSpace(t[0]) && !IsSpace(t[|t| - 1]))
    && exists before, after :: s == before + t + after && Blank(before) && Blank(after)
  }

  lemma {:induction false} TrimStartDrops(s: string) returns (before: string)
    ensures s == before + TrimStart(s) && Blank(before)
  {
    if s != [] && IsSpace(s[0]) {
      var more := TrimStartDrops(s[1..]);
      before := [s[0]] + more;
    } else {
      before := [];
    }
  }

  lemma {:induction false} TrimEndDrops(s: string) returns (after: string)
    ensures s == TrimEnd(s) + after && Blank(after)
    ensures TrimEnd(s) != [] ==> !IsSpace(TrimEnd(s)[|TrimEnd(s)| - 1])
  {
    if s != [] && IsSpace(s[|s| - 1]) {
      var more := TrimEndDrops(s[..|s| - 1]);
      after := more + [s[|s| - 1]];
      assert s == s[..|s| - 1] + [s[|s| - 1]];
    } else {
      after := [];
    }
  }

  lemma {:induction false} TrimStartThrough(before: string, t: string)
    requires Blank(before) && t != [] && !IsSpace(t[0])
    ensures TrimStart(before + t) == t
  {
    if before == [] {
      assert before + t == t;
    } else {
      assert before[0] in before && (before + t)[1..] == before[1..] + t;
      TrimStartThrough(before[1..], t);
    }
  }

  lemma {:induction false} TrimEndThrough(t: string, after: string)
    requires Blank(after) && t != [] && !IsSpace(t[|t| - 1])
    ensures TrimEnd(t + after) == t
  {
    if after == [] {
      assert t + after == t;
    } else {
      var n := |after| - 1;
      assert after[n] in after && (t + after)[..|t| + n] == t + after[..n];
      TrimEndThrough(t, after[..n]);
    }
  }

  lemma TrimHolds(s: string)
    ensures TrimsTo(s, Trim(s))
  {
    var before := TrimStartDrops(s);
    var after := TrimEndDrops(TrimStart(s));
    TrimStartBlank(s);
    assert s == before + Trim(s) + after;
    if Trim(s) != [] { assert Trim(s)[0] == TrimStart(s)[0]; }
  }

  lemma TrimThrough(before: string, t: string, after: string)
    requires Blank(before) && Blank(after) && (t != [] ==> !IsSpace(t[0]) && !IsSpace(t[|t| - 1]))
    ensures Trim(before + t + after) == t
  {
    if t == [] {
      assert Blank(before + t + after);
      TrimIsBlank(before + t + after);
    } else {
      assert before + t + after == before + (t + after);
      TrimStartThrough(before, t + after);
      TrimEndThrough(t, after);
    }
  }

  lemma TrimIff(s: string, t: string)
    ensures Trim(s) == t <==> TrimsTo(s, t)
  {
    TrimHolds(s);
    if TrimsTo(s, t) {
      var before, after :| s == before + t + after && Blank(before) && Blank(after);
      TrimThrough(before, t, after);
    }
  }

  // ----- Headings and fences

  // The text begins with exactly n marks.
  ghost predicate Marks(s: string, mark: char, n: nat) {
    n <= |s| && (forall i | 0 <= i < n :: s[i] == mark) && (n < |s| ==> s[n] != mark)
  }

  lemma {:induction false} RunIff(s: string, mark: char, n: nat)
    ensures Run(s, mark) == n <==> Marks(s, mark, n)
  {
    if s != [] && s[0] == mark {
      if n > 0 {
        RunIff(s[1..], mark, n - 1);
        assert Marks(s, mark, n) ==> Marks(s[1..], mark, n - 1);
        if Marks(s[1..], mark, n - 1) {
          forall i | 0 <= i < n ensures s[i] == mark {
            if i > 0 { assert s[i] == s[1..][i - 1]; }
          }
        }
      }
    }
  }

  lemma {:induction false} HashesEnd(s: string)
    ensures Run(s, '#') <= |s| && DropHashes(s) == s[Run(s, '#')..]
  {
    if s != [] && s[0] == '#' { HashesEnd(s[1..]); }
  }

  // The word "computation", each letter in either case.
  ghost predicate SaysComputation(name: string) {
    && |name| == 11
    && (name[0] == 'c' || name[0] == 'C') && (name[1] == 'o' || name[1] == 'O') && (name[2] == 'm' || name[2] == 'M')
    && (name[3] == 'p' || name[3] == 'P') && (name[4] == 'u' || name[4] == 'U') && (name[5] == 't' || name[5] == 'T')
    && (name[6] == 'a' || name[6] == 'A') && (name[7] == 't' || name[7] == 'T') && (name[8] == 'i' || name[8] == 'I')
    && (name[9] == 'o' || name[9] == 'O') && (name[10] == 'n' || name[10] == 'N')
  }

  lemma SaysComputationIff(name: string)
    ensures Lower(name) == "computation" <==> SaysComputation(name)
  {
    LowerPointwise(name);
    var word := "computation";
    if |name| == 11 {
      assert Lower(name) == word <==> forall i | 0 <= i < 11 :: LowerChar(name[i]) == word[i];
    }
  }

  // Behind its marks and the white space around it the heading says "computation".
  ghost predicate NamesComputation(t: string) {
    exists n: nat, name :: Marks(t, '#', n) && TrimsTo(t[n..], name) && SaysComputation(name)
  }

  ghost predicate BeginsWithThree(t: string, mark: char) {
    |t| >= 3 && t[0] == mark && t[1] == mark && t[2] == mark
  }

  // The trimmed line is a heading when it begins with `#`, and a fence when it begins with three
  // backticks or three tildes.
  ghost predicate TrimmedIs(t: string, kind: LineKind) {
    match kind
    case Heading(computation) => t != [] && t[0] == '#' && (computation <==> NamesComputation(t))
    case Fence(tilde, width, bare) =>
      width >= 3 && Marks(t, if tilde then '~' else '`', width) && (bare <==> width == |t|)
    case Prose => (t == [] || t[0] != '#') && !BeginsWithThree(t, '`') && !BeginsWithThree(t, '~')
  }

  ghost predicate LineIs(line: string, kind: LineKind) {
    exists t :: TrimsTo(line, t) && TrimmedIs(t, kind)
  }

  lemma NamesComputationIff(t: string)
    ensures NamesComputation(t) <==> Lower(Trim(DropHashes(t))) == "computation"
  {
    HashesEnd(t);
    var name := Trim(DropHashes(t));
    RunIff(t, '#', Run(t, '#'));
    TrimIff(DropHashes(t), name);
    SaysComputationIff(name);
    if NamesComputation(t) {
      var n: nat, other :| Marks(t, '#', n) && TrimsTo(t[n..], other) && SaysComputation(other);
      RunIff(t, '#', n);
      TrimIff(t[n..], other);
    }
  }

  lemma FenceIff(t: string, mark: char)
    ensures BeginsWithThree(t, mark) <==> Run(t, mark) >= 3
    ensures Marks(t, mark, Run(t, mark))
  {
    RunIff(t, mark, Run(t, mark));
  }

  // The kind of a line is what its characters make it.
  lemma KindIff(line: string, kind: LineKind)
    ensures Kind(line) == kind <==> LineIs(line, kind)
  {
    var t := Trim(line);
    TrimIff(line, t);
    forall other | TrimsTo(line, other) ensures other == t { TrimIff(line, other); }
    NamesComputationIff(t);
    FenceIff(t, '`');
    FenceIff(t, '~');
    if kind.Fence? { RunIff(t, if kind.tilde then '~' else '`', kind.width); }
    KindOfTrimmed(line, t, kind);
  }

  lemma KindOfTrimmed(line: string, t: string, kind: LineKind)
    requires t == Trim(line)
    requires NamesComputation(t) <==> Lower(Trim(DropHashes(t))) == "computation"
    requires BeginsWithThree(t, '`') <==> Run(t, '`') >= 3
    requires BeginsWithThree(t, '~') <==> Run(t, '~') >= 3
    requires kind.Fence? ==>
      (Marks(t, if kind.tilde then '~' else '`', kind.width) <==> Run(t, if kind.tilde then '~' else '`') == kind.width)
    ensures Kind(line) == kind <==> TrimmedIs(t, kind)
  {
    assert "```" <= t <==> BeginsWithThree(t, '`');
    assert "~~~" <= t <==> BeginsWithThree(t, '~');
  }
}
