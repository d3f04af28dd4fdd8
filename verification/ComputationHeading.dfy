/** The scan for the computation block against the documented reading, in which a fence is
    one of backticks or of tildes (CommonMark, section 4.5) and a `#` line inside it is text. */
module ComputationHeading {
  import opened Options
  import opened StringOrder
  import opened CanonicalText
  import opened Attestation

  // ----- Two readings of the lines

  // A fence ends at a bare line of the same mark that is at least as wide.
  predicate EndsFence(kind: LineKind, opener: LineKind)
    requires opener.Fence?
  {
    kind.Fence? && kind.bare && kind.tilde == opener.tilde && kind.width >= opener.width
  }

  // The line that ends the fence, from line i on, or the end.
  function FenceEnd(kinds: seq<LineKind>, i: nat, opener: LineKind): (j: nat)
    requires i <= |kinds| && opener.Fence?
    ensures i <= j <= |kinds| && forall k | i <= k < j :: !EndsFence(kinds[k], opener)
    ensures j < |kinds| ==> EndsFence(kinds[j], opener)
    decreases |kinds| - i
  {
    if i == |kinds| || EndsFence(kinds[i], opener) then i else FenceEnd(kinds, i + 1, opener)
  }

  // The next line of backticks, where the scan ends a block.
  function NextBackticks(kinds: seq<LineKind>, i: nat): (j: nat)
    requires i <= |kinds|
    ensures i <= j <= |kinds| && forall k | i <= k < j :: !Backticks(kinds[k])
    ensures j < |kinds| ==> Backticks(kinds[j])
    decreases |kinds| - i
  {
    if i == |kinds| || Backticks(kinds[i]) then i else NextBackticks(kinds, i + 1)
  }

  // The fence that opens the computation, from line i on: a fence outside a computation
  // section is left unread up to the line that ends it.
  function ScopedOpening(kinds: seq<LineKind>, i: nat, inside: bool): (k: Option<nat>)
    requires i <= |kinds|
    ensures k.Some? ==> i <= k.value < |kinds| && kinds[k.value].Fence?
    decreases |kinds| - i
  {
    if i == |kinds| then None
    else
      match kinds[i]
      case Heading(computation) => ScopedOpening(kinds, i + 1, computation)
      case Prose => ScopedOpening(kinds, i + 1, inside)
      case Fence(_, _, _) =>
        if inside then Some(i)
        else
          var close := FenceEnd(kinds, i + 1, kinds[i]);
          if close == |kinds| then None else ScopedOpening(kinds, close + 1, false)
  }

  // The same for the line scan, which takes every `#` line as a heading and knows
  // backticks only.
  function ScannedOpening(kinds: seq<LineKind>, i: nat, inside: bool): (k: Option<nat>)
    requires i <= |kinds|
    ensures k.Some? ==> i <= k.value < |kinds| && Backticks(kinds[k.value])
    decreases |kinds| - i
  {
    if i == |kinds| then None
    else
      match kinds[i]
      case Heading(computation) => ScannedOpening(kinds, i + 1, computation)
      case Prose => ScannedOpening(kinds, i + 1, inside)
      case Fence(tilde, _, _) =>
        if inside && !tilde then Some(i) else ScannedOpening(kinds, i + 1, inside)
  }

  // Of the `#` lines from i to j the last one reads as the computation heading; without
  // one it stays as it was.
  ghost predicate Carries(kinds: seq<LineKind>, i: nat, j: nat, inside: bool)
    requires i <= j <= |kinds|
  {
    || (exists h :: i <= h < j && kinds[h] == Heading(true) && forall k | h < k < j :: !kinds[k].Heading?)
    || (inside && forall k | i <= k < j :: !kinds[k].Heading?)
  }

  // From i to j a line of backticks stands where the last `#` line reads as the heading.
  ghost predicate OpensWithin(kinds: seq<LineKind>, i: nat, j: nat, inside: bool)
    requires i <= j <= |kinds|
  {
    exists k :: i <= k < j && Backticks(kinds[k]) && Carries(kinds, i, k, inside)
  }

  // Where the scan goes astray, from line i on: the computation stands in a fence of
  // tildes; or a fence that is no computation has a line of backticks, at its beginning, in
  // it or at its end, above which the last `#` line stands in a fence and reads as the
  // computation heading. `stray` says that the last `#` line so far is such a one.
  ghost predicate Misread(kinds: seq<LineKind>, i: nat, inside: bool, stray: bool)
    requires i <= |kinds|
    decreases |kinds| - i
  {
    i < |kinds| &&
    match kinds[i]
    case Heading(computation) => Misread(kinds, i + 1, computation, false)
    case Prose => Misread(kinds, i + 1, inside, stray)
    case Fence(tilde, _, _) =>
      if inside then tilde
      else
        var close := FenceEnd(kinds, i + 1, kinds[i]);
        var behind := if close == |kinds| then close else close + 1;
        || OpensWithin(kinds, i, behind, stray)
        || (close < |kinds| && Misread(kinds, behind, false, Carries(kinds, i, behind, stray)))
  }

  // ----- When they agree

  lemma CarriesOn(kinds: seq<LineKind>, i: nat, j: nat, inside: bool)
    requires i < j <= |kinds|
    ensures var next := if kinds[i].Heading? then kinds[i].computation else inside;
      Carries(kinds, i, j, inside) <==> Carries(kinds, i + 1, j, next)
  {
    if kinds[i] == Heading(true) && forall k | i < k < j :: !kinds[k].Heading? {
      assert Carries(kinds, i, j, inside);
    }
  }

  // Through lines where it opens nothing the scan carries on with the last heading.
  lemma {:induction false} ScanThrough(kinds: seq<LineKind>, i: nat, j: nat, inside: bool)
    requires i <= j <= |kinds| && !OpensWithin(kinds, i, j, inside)
    ensures ScannedOpening(kinds, i, inside) == ScannedOpening(kinds, j, Carries(kinds, i, j, inside))
    decreases j - i
  {
    if i < j {
      var next := if kinds[i].Heading? then kinds[i].computation else inside;
      assert Carries(kinds, i, i, inside) == inside;
      forall k | i + 1 <= k < j && Backticks(kinds[k]) ensures !Carries(kinds, i + 1, k, next) {
        CarriesOn(kinds, i, k, inside);
      }
      CarriesOn(kinds, i, j, inside);
      ScanThrough(kinds, i + 1, j, next);
    }
  }

  // Where it opens something it stops there or earlier.
  lemma {:induction false} ScanStops(kinds: seq<LineKind>, i: nat, k: nat, inside: bool)
    requires i <= k < |kinds| && Backticks(kinds[k]) && Carries(kinds, i, k, inside)
    ensures ScannedOpening(kinds, i, inside).Some? && ScannedOpening(kinds, i, inside).value <= k
    decreases k - i
  {
    if i < k {
      CarriesOn(kinds, i, k, inside);
      ScanStops(kinds, i + 1, k, if kinds[i].Heading? then kinds[i].computation else inside);
    }
  }

  // The scan finds the fence of the documented reading if and only if it does not go astray.
  lemma {:induction false} AgreeIff(kinds: seq<LineKind>, i: nat, inside: bool, stray: bool)
    requires i <= |kinds| && !(inside && stray)
    ensures ScannedOpening(kinds, i, inside || stray) == ScopedOpening(kinds, i, inside)
      <==> !Misread(kinds, i, inside, stray)
    decreases |kinds| - i
  {
    if i < |kinds| {
      match kinds[i]
      case Heading(computation) => AgreeIff(kinds, i + 1, computation, false);
      case Prose => AgreeIff(kinds, i + 1, inside, stray);
      case Fence(tilde, _, _) => if !inside { AgreeBehindFence(kinds, i, stray); }
    }
  }

  lemma {:induction false} AgreeBehindFence(kinds: seq<LineKind>, i: nat, stray: bool)
    requires i < |kinds| && kinds[i].Fence?
    ensures ScannedOpening(kinds, i, stray) == ScopedOpening(kinds, i, false) <==> !Misread(kinds, i, false, stray)
    decreases |kinds| - i, 0
  {
    var close := FenceEnd(kinds, i + 1, kinds[i]);
    var behind := if close == |kinds| then close else close + 1;
    if OpensWithin(kinds, i, behind, stray) {
      var k :| i <= k < behind && Backticks(kinds[k]) && Carries(kinds, i, k, stray);
      ScanStops(kinds, i, k, stray);
    } else {
      ScanThrough(kinds, i, behind, stray);
      if close < |kinds| { AgreeIff(kinds, behind, false, Carries(kinds, i, behind, stray)); }
    }
  }

  // ----- The computation text

  // The lines of a block: the one that opens it and the one that ends it, or the end.
  datatype Extent = Extent(opener: nat, end: nat)

  ghost function ScannedBlock(kinds: seq<LineKind>): (r: Option<Extent>)
    ensures r.Some? ==> r.value.opener < r.value.end <= |kinds|
  {
    match ScannedOpening(kinds, 0, false)
    case None => None
    case Some(k) => Some(Extent(k, NextBackticks(kinds, k + 1)))
  }

  ghost function ScopedBlock(kinds: seq<LineKind>): (r: Option<Extent>)
    ensures r.Some? ==> r.value.opener < r.value.end <= |kinds|
  {
    match ScopedOpening(kinds, 0, false)
    case None => None
    case Some(k) => Some(Extent(k, FenceEnd(kinds, k + 1, kinds[k])))
  }

  // The documented block holds a line of backticks that does not end it.
  ghost predicate CutShort(kinds: seq<LineKind>) {
    var block := ScopedBlock(kinds);
    block.Some? && exists k :: block.value.opener < k < block.value.end && Backticks(kinds[k])
  }

  // The scan takes the documented lines if and only if it does not go astray on the way to
  // them and no line of backticks cuts them short.
  lemma BlocksAgreeIff(kinds: seq<LineKind>)
    ensures ScannedBlock(kinds) == ScopedBlock(kinds) <==> !Misread(kinds, 0, false, false) && !CutShort(kinds)
  {
    AgreeIff(kinds, 0, false, false);
  }

  lemma {:induction false} ScanFinds(kinds: seq<LineKind>, i: nat)
    requires i <= |kinds| && NoneBefore(kinds, i)
    ensures var k := ScannedOpening(kinds, i, InSection(kinds, i));
      if k.Some? then OpensComputation(kinds, k.value) && NoneBefore(kinds, k.value) else NoneBefore(kinds, |kinds|)
    decreases |kinds| - i
  {
    if i < |kinds| {
      SectionStep(kinds, i);
      if !(Backticks(kinds[i]) && InSection(kinds, i)) { ScanFinds(kinds, i + 1); }
    }
  }

  // The lines between the two ends of the block make up the text.
  ghost predicate TextIn(lines: seq<string>, block: Option<Extent>, text: string) {
    && block.Some? && block.value.opener < block.value.end <= |lines|
    && text == Join(lines[block.value.opener + 1..block.value.end], "\n")
  }

  // The text of the first block under the computation heading, as documented.
  ghost predicate ScopedText(body: string, text: string) {
    TextIn(Lines(body), ScopedBlock(Kinds(Lines(body))), text)
  }

  lemma ClosesIffBackticks(line: string)
    ensures Closes(line) <==> Backticks(Kind(line))
  {
  }

  lemma ClosingLines(lines: seq<string>, j: nat)
    requires j < |lines|
    ensures Closes(lines[j]) <==> Backticks(Kinds(lines)[j])
  {
    ClosesIffBackticks(lines[j]);
  }

  lemma BlockUpTo(lines: seq<string>, k: nat, text: string)
    requires k < |lines|
    ensures Block(lines, k, text) <==> text == Join(lines[k + 1..NextBackticks(Kinds(lines), k + 1)], "\n")
  {
    var m := NextBackticks(Kinds(lines), k + 1);
    forall j | k < j < |lines| ensures Closes(lines[j]) <==> Backticks(Kinds(lines)[j]) {
      ClosingLines(lines, j);
    }
    BlockEndsThere(lines, k, m, text);
  }

  lemma BlockEndsThere(lines: seq<string>, k: nat, m: nat, text: string)
    requires k < m <= |lines| && (m < |lines| ==> Closes(lines[m]))
    requires forall j | k < j < m :: !Closes(lines[j])
    ensures Block(lines, k, text) <==> text == Join(lines[k + 1..m], "\n")
  {
    if Block(lines, k, text) {
      var n :| k < n <= |lines| && (n < |lines| ==> Closes(lines[n])) && (forall j | k < j < n :: !Closes(lines[j]))
        && text == Join(lines[k + 1..n], "\n");
      assert !(n < m) && !(m < n);
    }
  }

  lemma ScannedFence(body: string, text: string)
    ensures var k := ScannedOpening(Kinds(Lines(body)), 0, false);
      && (InlineText(body, text) <==> k.Some? && Block(Lines(body), k.value, text))
      && (NoInline(body) <==> k.None?)
  {
    var kinds := Kinds(Lines(body));
    assert !InSection(kinds, 0);
    ScanFinds(kinds, 0);
    var k := ScannedOpening(kinds, 0, false);
    if InlineText(body, text) {
      var j: nat :| OpensComputation(kinds, j) && NoneBefore(kinds, j) && Block(Lines(body), j, text);
      assert k.Some?;
      assert !(j < k.value) && !(k.value < j);
    }
  }

  lemma BlockIsText(lines: seq<string>, text: string)
    ensures var k := ScannedOpening(Kinds(lines), 0, false);
      k.Some? && Block(lines, k.value, text) <==> TextIn(lines, ScannedBlock(Kinds(lines)), text)
  {
    var k := ScannedOpening(Kinds(lines), 0, false);
    if k.Some? { BlockUpTo(lines, k.value, text); }
  }

  lemma ScannedText(body: string, text: string)
    ensures InlineText(body, text) <==> TextIn(Lines(body), ScannedBlock(Kinds(Lines(body))), text)
    ensures NoInline(body) <==> ScannedBlock(Kinds(Lines(body))).None?
  {
    ScannedFence(body, text);
    BlockIsText(Lines(body), text);
  }

  // On the bodies of the condition the computation is the documented one.
  lemma ScopedWhenNotMisread(body: string, text: string)
    requires !Misread(Kinds(Lines(body)), 0, false, false) && !CutShort(Kinds(Lines(body)))
    ensures InlineText(body, text) <==> ScopedText(body, text)
    ensures NoInline(body) <==> ScopedBlock(Kinds(Lines(body))).None?
  {
    BlocksAgreeIff(Kinds(Lines(body)));
    ScannedText(body, text);
  }


  // ----- A body on which they differ

  lemma {:induction false} LinesOfJoin(lines: seq<string>)
    requires lines != [] && lines[|lines| - 1] != ""
    requires forall i | 0 <= i < |lines| :: '\n' !in lines[i] && '\r' !in lines[i]
    ensures Join(lines, "\n") != "" && Lines(Join(lines, "\n")) == lines
  {
    var (first, text) := (lines[0], Join(lines, "\n"));
    if |lines| == 1 {
      OneLine(first);
    } else {
      var rest := Join(lines[1..], "\n");
      LinesOfJoin(lines[1..]);
      assert text == first + ("\n" + rest);
      UpToStops(first, '\n', "\n" + rest);
      assert text[|first| + 1..] == rest;
      assert StripReturn(first) == first;
      assert lines == [first] + lines[1..];
    }
  }

  const NOTES := "# " + "Notes"
  const HEADING := "# " + ("Compu" + "tation")
  const SHELL := "```" + "sh"
  const SQL := "```" + "sql"
  const TEXT := "```" + "text"
  const BACKTICKS := "```" + ""
  const TILDE_SHELL := "~~~" + "sh"
  const TILDE_SQL := "~~~" + "sql"
  const TILDES := "~~~" + ""
  const PROSE := "prose"
  const QUERY := "select 1"

  // A shell example with a comment line, then prose, then the computation.
  const COMMENTED: seq<string> := [NOTES, SHELL, HEADING, BACKTICKS, PROSE, HEADING, SQL, QUERY, BACKTICKS]

  // The comment in a fence of tildes, then an example, then the computation.
  const TILDED: seq<string> :=
    [TILDE_SHELL, HEADING, TILDES, TEXT, PROSE, BACKTICKS, HEADING, SQL, QUERY, BACKTICKS]

  // The computation itself in a fence of tildes.
  const STORED_IN_TILDES: seq<string> := [HEADING, TILDE_SQL, QUERY, TILDES]

  const OPEN := Fence(false, 3, false)
  const CLOSE := Fence(false, 3, true)
  const TILDE_OPEN := Fence(true, 3, false)
  const TILDE_CLOSE := Fence(true, 3, true)

  lemma TrimmedAlready(s: string)
    requires s != "" && !IsSpace(s[0]) && !IsSpace(s[|s| - 1])
    ensures Trim(s) == s
  {
  }

  lemma HashesDropped(name: string)
    requires name == "" || name[0] != '#'
    ensures DropHashes("# " + name) == " " + name
  {
    var (line, rest) := ("# " + name, " " + name);
    assert line[1..] == rest && DropHashes(rest) == rest;
  }

  lemma SpaceTrimmed(name: string)
    requires name != "" && !IsSpace(name[0]) && !IsSpace(name[|name| - 1])
    ensures Trim(" " + name) == name
  {
    var rest := " " + name;
    assert rest[1..] == name && TrimStart(rest) == TrimStart(name);
    TrimmedAlready(name);
  }

  lemma KindOfHeading(name: string)
    requires name != "" && !IsSpace(name[0]) && !IsSpace(name[|name| - 1]) && name[0] != '#'
    ensures Kind("# " + name) == Heading(Lower(name) == "computation")
  {
    TrimmedAlready("# " + name);
    HashesDropped(name);
    SpaceTrimmed(name);
  }

  lemma LowerOfComputation()
    ensures Lower("Compu" + "tation") == "computation"
  {
    LowerPointwise("Compu");
    LowerPointwise("tation");
    assert Lower("Compu") == "compu";
    assert Lower("tation") == "tation";
    LowerConcat("Compu", "tation");
    assert "compu" + "tation" == "computation";
  }

  lemma RunOfThree(mark: char, rest: string)
    requires rest == "" || rest[0] != mark
    ensures Run([mark, mark, mark] + rest, mark) == 3
  {
    var s := [mark, mark, mark] + rest;
    assert s[1..] == [mark, mark] + rest && s[1..][1..] == [mark] + rest && s[1..][1..][1..] == rest;
    assert Run(rest, mark) == 0 && Run(s[1..][1..], mark) == 1 && Run(s[1..], mark) == 2;
  }

  lemma KindOfBackticks(rest: string)
    requires rest == "" || (!IsSpace(rest[|rest| - 1]) && rest[0] != '`')
    ensures Kind("```" + rest) == Fence(false, 3, rest == "")
  {
    TrimmedAlready("```" + rest);
    RunOfThree('`', rest);
    assert "```" == ['`', '`', '`'];
  }

  lemma KindOfTildes(rest: string)
    requires rest == "" || (!IsSpace(rest[|rest| - 1]) && rest[0] != '~')
    ensures Kind("~~~" + rest) == Fence(true, 3, rest == "")
  {
    TrimmedAlready("~~~" + rest);
    RunOfThree('~', rest);
    assert "~~~" == ['~', '~', '~'];
  }

  lemma KindOfProse(line: string)
    requires line != "" && !IsSpace(line[0]) && !IsSpace(line[|line| - 1])
    requires line[0] != '#' && line[0] != '`' && line[0] != '~'
    ensures Kind(line) == Prose
  {
    TrimmedAlready(line);
  }

  lemma KindsOfLines()
    ensures Kind(NOTES) == Heading(false) && Kind(HEADING) == Heading(true)
    ensures Kind(PROSE) == Kind(QUERY) == Prose
  {
    KindOfHeading("Notes");
    KindOfHeading("Compu" + "tation");
    LowerOfComputation();
    KindOfProse(PROSE);
    KindOfProse(QUERY);
  }

  lemma KindsOfFences()
    ensures Kind(SHELL) == Kind(SQL) == Kind(TEXT) == OPEN && Kind(BACKTICKS) == CLOSE
    ensures Kind(TILDE_SHELL) == Kind(TILDE_SQL) == TILDE_OPEN && Kind(TILDES) == TILDE_CLOSE
  {
    KindOfBackticks("sh");
    KindOfBackticks("sql");
    KindOfBackticks("text");
    KindOfBackticks("");
    KindOfTildes("sh");
    KindOfTildes("sql");
    KindOfTildes("");
  }

  lemma FourKinds(a: string, b: string, c: string, d: string, p: LineKind, q: LineKind, r: LineKind, t: LineKind)
    requires Kind(a) == p && Kind(b) == q && Kind(c) == r && Kind(d) == t
    ensures Kinds([a, b, c, d]) == [p, q, r, t]
  {
  }

  lemma OneMoreKind(lines: seq<string>, kinds: seq<LineKind>, line: string, kind: LineKind)
    requires Kinds(lines) == kinds && Kind(line) == kind
    ensures Kinds(lines + [line]) == kinds + [kind]
  {
  }

  lemma KindsConcat(a: seq<string>, b: seq<string>, p: seq<LineKind>, q: seq<LineKind>)
    requires Kinds(a) == p && Kinds(b) == q
    ensures Kinds(a + b) == p + q
  {
  }

  // The kinds of such bodies, by those of their lines.
  lemma CommentedKinds(notes: string, shell: string, heading: string, close: string, prose: string, sql: string,
                       query: string)
    requires Kind(notes) == Heading(false) && Kind(heading) == Heading(true) && Kind(prose) == Kind(query) == Prose
    requires Kind(shell) == Kind(sql) == OPEN && Kind(close) == CLOSE
    ensures Kinds([notes, shell, heading, close, prose, heading, sql, query, close])
         == [Heading(false), OPEN, Heading(true), CLOSE, Prose, Heading(true), OPEN, Prose, CLOSE]
  {
    var (front, back) := ([notes, shell, heading, close], [prose, heading, sql, query]);
    FourKinds(notes, shell, heading, close, Heading(false), OPEN, Heading(true), CLOSE);
    FourKinds(prose, heading, sql, query, Prose, Heading(true), OPEN, Prose);
    KindsConcat(front, back, Kinds(front), Kinds(back));
    OneMoreKind(front + back, Kinds(front) + Kinds(back), close, CLOSE);
  }

  lemma TildedKinds(shell: string, heading: string, tildes: string, example: string, prose: string, close: string,
                    sql: string, query: string)
    requires Kind(heading) == Heading(true) && Kind(prose) == Kind(query) == Prose
    requires Kind(shell) == TILDE_OPEN && Kind(tildes) == TILDE_CLOSE
    requires Kind(example) == Kind(sql) == OPEN && Kind(close) == CLOSE
    ensures Kinds([shell, heading, tildes, example, prose, close, heading, sql, query, close])
         == [TILDE_OPEN, Heading(true), TILDE_CLOSE, OPEN, Prose, CLOSE, Heading(true), OPEN, Prose, CLOSE]
  {
    var (front, back) := ([shell, heading, tildes, example], [prose, close, heading, sql]);
    FourKinds(shell, heading, tildes, example, TILDE_OPEN, Heading(true), TILDE_CLOSE, OPEN);
    FourKinds(prose, close, heading, sql, Prose, CLOSE, Heading(true), OPEN);
    KindsConcat(front, back, Kinds(front), Kinds(back));
    OneMoreKind(front + back, Kinds(front) + Kinds(back), query, Prose);
    OneMoreKind(front + back + [query], Kinds(front) + Kinds(back) + [Prose], close, CLOSE);
  }

  lemma StoredKinds(heading: string, sql: string, query: string, tildes: string)
    requires Kind(heading) == Heading(true) && Kind(query) == Prose
    requires Kind(sql) == TILDE_OPEN && Kind(tildes) == TILDE_CLOSE
    ensures Kinds([heading, sql, query, tildes]) == [Heading(true), TILDE_OPEN, Prose, TILDE_CLOSE]
  {
    FourKinds(heading, sql, query, tildes, Heading(true), TILDE_OPEN, Prose, TILDE_CLOSE);
  }

  lemma KindsOfCommented()
    ensures Kinds(COMMENTED)
         == [Heading(false), OPEN, Heading(true), CLOSE, Prose, Heading(true), OPEN, Prose, CLOSE]
  {
    KindsOfLines();
    KindsOfFences();
    CommentedKinds(NOTES, SHELL, HEADING, BACKTICKS, PROSE, SQL, QUERY);
  }

  lemma KindsOfTilded()
    ensures Kinds(TILDED)
         == [TILDE_OPEN, Heading(true), TILDE_CLOSE, OPEN, Prose, CLOSE, Heading(true), OPEN, Prose, CLOSE]
  {
    KindsOfLines();
    KindsOfFences();
    TildedKinds(TILDE_SHELL, HEADING, TILDES, TEXT, PROSE, BACKTICKS, SQL, QUERY);
  }

  lemma KindsOfStored()
    ensures Kinds(STORED_IN_TILDES) == [Heading(true), TILDE_OPEN, Prose, TILDE_CLOSE]
  {
    KindsOfLines();
    KindsOfFences();
    StoredKinds(HEADING, TILDE_SQL, QUERY, TILDES);
  }

  // The texts of a body, given the blocks of the two readings.
  lemma TextsOfBlocks(lines: seq<string>, scanned: Option<Extent>, scoped: Option<Extent>, text: string)
    requires lines != [] && lines[|lines| - 1] != ""
    requires forall i | 0 <= i < |lines| :: '\n' !in lines[i] && '\r' !in lines[i]
    requires ScannedBlock(Kinds(lines)) == scanned && ScopedBlock(Kinds(lines)) == scoped
    ensures InlineText(Join(lines, "\n"), text) <==> TextIn(lines, scanned, text)
    ensures NoInline(Join(lines, "\n")) <==> scanned.None?
    ensures ScopedText(Join(lines, "\n"), text) <==> TextIn(lines, scoped, text)
  {
    LinesOfJoin(lines);
    ScannedText(Join(lines, "\n"), text);
  }

  lemma BlocksOfCommented(kinds: seq<LineKind>)
    requires kinds == [Heading(false), OPEN, Heading(true), CLOSE, Prose, Heading(true), OPEN, Prose, CLOSE]
    ensures ScannedBlock(kinds) == Some(Extent(3, 6)) && ScopedBlock(kinds) == Some(Extent(6, 8))
  {
    assert ScannedOpening(kinds, 2, false) == ScannedOpening(kinds, 3, true) == Some(3);
    assert ScannedOpening(kinds, 0, false) == ScannedOpening(kinds, 1, false) == ScannedOpening(kinds, 2, false);
    assert NextBackticks(kinds, 4) == NextBackticks(kinds, 6) == 6;
    assert FenceEnd(kinds, 2, OPEN) == FenceEnd(kinds, 3, OPEN) == 3;
    assert ScopedOpening(kinds, 5, false) == ScopedOpening(kinds, 6, true) == Some(6);
    assert ScopedOpening(kinds, 1, false) == ScopedOpening(kinds, 4, false) == ScopedOpening(kinds, 5, false);
    assert FenceEnd(kinds, 7, OPEN) == FenceEnd(kinds, 8, OPEN) == 8;
  }

  // There the comment opens a section and the closing fence a block: the text taken is the
  // prose and the heading behind it, and not the computation.
  lemma CommentOpensASection(text: string)
    ensures InlineText(Join(COMMENTED, "\n"), text) <==> text == Join([PROSE, HEADING], "\n")
    ensures ScopedText(Join(COMMENTED, "\n"), text) <==> text == QUERY
  {
    KindsOfCommented();
    TextsOfCommented(COMMENTED, text);
    assert COMMENTED[4..6] == [PROSE, HEADING] && COMMENTED[7..8] == [QUERY];
  }

  lemma TextsOfCommented(lines: seq<string>, text: string)
    requires Kinds(lines) == [Heading(false), OPEN, Heading(true), CLOSE, Prose, Heading(true), OPEN, Prose, CLOSE]
    requires |lines| == 9 && lines[8] != "" && forall i | 0 <= i < 9 :: '\n' !in lines[i] && '\r' !in lines[i]
    ensures InlineText(Join(lines, "\n"), text) <==> text == Join(lines[4..6], "\n")
    ensures ScopedText(Join(lines, "\n"), text) <==> text == Join(lines[7..8], "\n")
  {
    BlocksOfCommented(Kinds(lines));
    TextsOfBlocks(lines, Some(Extent(3, 6)), Some(Extent(6, 8)), text);
  }

  lemma BlocksOfTilded(kinds: seq<LineKind>)
    requires kinds
      == [TILDE_OPEN, Heading(true), TILDE_CLOSE, OPEN, Prose, CLOSE, Heading(true), OPEN, Prose, CLOSE]
    ensures ScannedBlock(kinds) == Some(Extent(3, 5)) && ScopedBlock(kinds) == Some(Extent(7, 9))
  {
    assert ScannedOpening(kinds, 2, true) == ScannedOpening(kinds, 3, true) == Some(3);
    assert ScannedOpening(kinds, 0, false) == ScannedOpening(kinds, 1, false) == ScannedOpening(kinds, 2, true);
    assert NextBackticks(kinds, 4) == NextBackticks(kinds, 5) == 5;
    assert FenceEnd(kinds, 1, TILDE_OPEN) == FenceEnd(kinds, 2, TILDE_OPEN) == 2;
    assert FenceEnd(kinds, 4, OPEN) == FenceEnd(kinds, 5, OPEN) == 5;
    assert ScopedOpening(kinds, 6, false) == ScopedOpening(kinds, 7, true) == Some(7);
    assert ScopedOpening(kinds, 0, false) == ScopedOpening(kinds, 3, false) == ScopedOpening(kinds, 6, false);
    assert FenceEnd(kinds, 8, OPEN) == FenceEnd(kinds, 9, OPEN) == 9;
  }

  // With the comment in a fence of tildes, the example behind that fence is taken.
  lemma TildesAreNoFence(text: string)
    ensures InlineText(Join(TILDED, "\n"), text) <==> text == PROSE
    ensures ScopedText(Join(TILDED, "\n"), text) <==> text == QUERY
  {
    KindsOfTilded();
    TextsOfTilded(TILDED, text);
    assert TILDED[4..5] == [PROSE] && TILDED[8..9] == [QUERY];
  }

  lemma TextsOfTilded(lines: seq<string>, text: string)
    requires Kinds(lines)
      == [TILDE_OPEN, Heading(true), TILDE_CLOSE, OPEN, Prose, CLOSE, Heading(true), OPEN, Prose, CLOSE]
    requires |lines| == 10 && lines[9] != "" && forall i | 0 <= i < 10 :: '\n' !in lines[i] && '\r' !in lines[i]
    ensures InlineText(Join(lines, "\n"), text) <==> text == Join(lines[4..5], "\n")
    ensures ScopedText(Join(lines, "\n"), text) <==> text == Join(lines[8..9], "\n")
  {
    BlocksOfTilded(Kinds(lines));
    TextsOfBlocks(lines, Some(Extent(3, 5)), Some(Extent(7, 9)), text);
  }

  lemma BlocksOfStored(kinds: seq<LineKind>)
    requires kinds == [Heading(true), TILDE_OPEN, Prose, TILDE_CLOSE]
    ensures ScannedBlock(kinds) == None && ScopedBlock(kinds) == Some(Extent(1, 3))
  {
    assert ScannedOpening(kinds, 3, true) == ScannedOpening(kinds, 4, true) == None;
    assert ScannedOpening(kinds, 1, true) == ScannedOpening(kinds, 2, true) == ScannedOpening(kinds, 3, true);
    assert ScopedOpening(kinds, 0, false) == ScopedOpening(kinds, 1, true) == Some(1);
    assert FenceEnd(kinds, 2, TILDE_OPEN) == FenceEnd(kinds, 3, TILDE_OPEN) == 3;
  }

  // A computation stored in a fence of tildes is not found.
  lemma TildesAreNotFound(text: string)
    ensures NoInline(Join(STORED_IN_TILDES, "\n"))
    ensures ScopedText(Join(STORED_IN_TILDES, "\n"), text) <==> text == QUERY
  {
    KindsOfStored();
    TextsOfStored(STORED_IN_TILDES, text);
    assert STORED_IN_TILDES[2..3] == [QUERY];
  }

  lemma TextsOfStored(lines: seq<string>, text: string)
    requires Kinds(lines) == [Heading(true), TILDE_OPEN, Prose, TILDE_CLOSE]
    requires |lines| == 4 && lines[3] != "" && forall i | 0 <= i < 4 :: '\n' !in lines[i] && '\r' !in lines[i]
    ensures NoInline(Join(lines, "\n"))
    ensures ScopedText(Join(lines, "\n"), text) <==> text == Join(lines[2..3], "\n")
  {
    BlocksOfStored(Kinds(lines));
    TextsOfBlocks(lines, None, Some(Extent(1, 3)), text);
  }
}
