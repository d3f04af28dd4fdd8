/** What the comparable shape forgets: two computation texts have the same shape exactly
    when small changes of layout (case, spacing, trailing comments) lead from one to the
    other. */
module Layout {
  import opened StringOrder
  import opened CanonicalText

  // Every "--" of the text is ended by a line break, so that what follows the text does
  // not stand in a comment.
  ghost predicate OutsideComment(s: string) {
    forall i | 0 <= i < |s| - 1 && s[i] == '-' && s[i + 1] == '-' :: '\n' in s[i + 2..]
  }

  // The code points of Unicode White_Space.
  ghost predicate IsWhite(c: char) {
    var n := c as int;
    9 <= n <= 13 || n == 0x20 || n == 0x85 || n == 0xA0 || n == 0x1680 || 0x2000 <= n <= 0x200A || n == 0x2028
    || n == 0x2029 || n == 0x202F || n == 0x205F || n == 0x3000
  }

  ghost predicate Whitespace(s: string) {
    forall c | c in s :: IsWhite(c)
  }

  // The same character, or an ASCII letter in its two cases.
  ghost predicate SameLetter(c: char, d: char) {
    c == d || (65 <= c as int <= 90 && d as int == c as int + 32) || (65 <= d as int <= 90 && c as int == d as int + 32)
  }

  ghost predicate SameUpToCase(a: string, b: string) {
    |a| == |b| && forall i | 0 <= i < |a| :: SameLetter(a[i], b[i])
  }

  lemma SameUpToCaseIff(a: string, b: string)
    ensures Lower(a) == Lower(b) <==> SameUpToCase(a, b)
  {
    LowerPointwise(a);
    LowerPointwise(b);
    forall c, d ensures LowerChar(c) == LowerChar(d) <==> SameLetter(c, d) { SameLetterIff(c, d); }
    if Lower(a) == Lower(b) {
      forall i | 0 <= i < |a| ensures SameLetter(a[i], b[i]) { assert Lower(a)[i] == Lower(b)[i]; }
    }
  }

  lemma SameLetterIff(c: char, d: char)
    ensures LowerChar(c) == LowerChar(d) <==> SameLetter(c, d)
  {
  }

  ghost predicate LineStart(before: string) {
    before == "" || before[|before| - 1] == '\n'
  }

  ghost predicate LineEnd(after: string) {
    after == "" || after[0] == '\n'
  }

  ghost predicate SpacingChange(a: string, b: string, x: string, u: string, v: string, y: string) {
    && a == x + u + y && b == x + v + y
    && OutsideComment(x) && Whitespace(u) && Whitespace(v)
    && ((u != "" && v != "") || x == "" || y == "")
  }

  // Outside comments, a run of whitespace becomes another one, and at either end of the
  // text it may come or go.
  ghost predicate SpacingDiffers(a: string, b: string) {
    exists x, u, v, y :: SpacingChange(a, b, x, u, v, y)
  }

  ghost predicate CommentAdded(a: string, b: string, before: string, line: string, comment: string, after: string) {
    && a == before + line + after && b == before + (line + "--" + comment) + after
    && LineStart(before) && LineEnd(after)
    && '\n' !in line && '\n' !in comment
    && (line == "" || line[|line| - 1] != '-')
  }

  // One line gets a trailing comment, with or without a space in front of it.
  ghost predicate CommentDiffers(a: string, b: string) {
    exists before, line, comment, after :: CommentAdded(a, b, before, line, comment, after)
  }

  ghost predicate LayoutStep(a: string, b: string) {
    SameUpToCase(a, b) || SpacingDiffers(a, b) || CommentDiffers(a, b)
  }

  ghost predicate Chain(texts: seq<string>) {
    forall i | 0 <= i < |texts| - 1 :: LayoutStep(texts[i], texts[i + 1]) || LayoutStep(texts[i + 1], texts[i])
  }

  ghost predicate Links(texts: seq<string>, a: string, b: string) {
    texts != [] && texts[0] == a && texts[|texts| - 1] == b && Chain(texts)
  }

  // Finitely many changes of case, of spacing and of trailing comments, in either
  // direction, lead from one text to the other.
  ghost predicate OnlyLayoutDiffers(a: string, b: string) {
    exists texts :: Links(texts, a, b)
  }

  // ----- No change of layout changes the words

  lemma WordsAfterLines(before: string, rest: string)
    requires LineStart(before)
    ensures Words(before + rest) == Words(before) + Words(rest)
  {
    if before == "" {
      assert before + rest == rest;
    } else {
      var earlier := before[..|before| - 1];
      assert before == earlier + "\n" + "";
      assert before + rest == earlier + "\n" + rest;
      WordsOfConcatenatedLines(earlier, rest);
      WordsOfConcatenatedLines(earlier, "");
    }
  }

  lemma WordsFromLine(line: string, after: string)
    requires LineEnd(after) && '\n' !in line
    ensures Words(line + after) == LineWords(line) + Words(after)
  {
    if after == "" {
      assert line + after == line;
      WordsOfOneLine(line);
    } else {
      var later := after[1..];
      assert after == "" + "\n" + later;
      assert line + after == line + "\n" + later;
      WordsOfFirstLine(line, later);
      WordsOfFirstLine("", later);
    }
  }

  // The words of a text around one of its lines.
  lemma WordsAround(before: string, line: string, after: string)
    requires LineStart(before) && LineEnd(after) && '\n' !in line
    ensures Words(before + line + after) == Words(before) + LineWords(line) + Words(after)
  {
    assert before + line + after == before + (line + after);
    WordsAfterLines(before, line + after);
    WordsFromLine(line, after);
  }

  // The last line of a text, with what stands before it.
  lemma {:induction false} LastLine(x: string) returns (before: string, line: string)
    ensures x == before + line && LineStart(before) && '\n' !in line
  {
    if x == "" {
      before, line := "", "";
    } else if x[|x| - 1] == '\n' {
      before, line := x, "";
    } else {
      before, line := LastLine(x[..|x| - 1]);
      line := line + [x[|x| - 1]];
    }
  }

  lemma LastLineHasNoDashes(before: string, line: string)
    requires OutsideComment(before + line) && '\n' !in line
    ensures NoDashes(line)
  {
    var x := before + line;
    forall i | 0 <= i < |line| - 1 ensures !(line[i] == '-' && line[i + 1] == '-') {
      var k := |before| + i;
      assert x[k] == line[i] && x[k + 1] == line[i + 1];
      assert x[k + 2..] == line[i + 2..];
    }
  }

  lemma Regroup<T>(p: seq<T>, l: seq<T>, f: seq<T>, a: seq<T>)
    ensures p + (l + f) + a == (p + l) + (f + a)
  {
  }

  lemma SpaceInLine(before: string, last: string, c: char, first: string, after: string)
    requires LineStart(before) && '\n' !in last && NoDashes(last)
    requires IsSpace(c) && c != '\n'
    requires '\n' !in first && LineEnd(after)
    ensures Words(before + (last + [c] + first) + after) == Words(before + last) + Words(first + after)
  {
    var line := last + [c] + first;
    assert '\n' !in line;
    WordsAround(before, line, after);
    SpaceOnlySeparates(last, c, first);
    assert Words(before + last) == Words(before) + LineWords(last) by {
      WordsAfterLines(before, last);
      WordsOfOneLine(last);
    }
    WordsFromLine(first, after);
    Regroup(Words(before), LineWords(last), LineWords(first), Words(after));
  }

  lemma OneSpaceSeparates(x: string, c: char, y: string)
    requires OutsideComment(x) && IsSpace(c)
    ensures Words(x + [c] + y) == Words(x) + Words(y)
  {
    if c == '\n' {
      assert x + [c] + y == x + "\n" + y;
      WordsOfConcatenatedLines(x, y);
    } else {
      var before, last := LastLine(x);
      LastLineHasNoDashes(before, last);
      var first := UpTo(y, '\n');
      UpToIsPrefix(y, '\n');
      var after := y[|first|..];
      assert y == first + after;
      assert x + [c] + y == before + (last + [c] + first) + after;
      SpaceInLine(before, last, c, first, after);
    }
  }

  lemma {:induction false} LeadingSpaceIgnored(u: string, y: string)
    requires Whitespace(u)
    ensures Words(u + y) == Words(y)
  {
    if u == "" {
      assert u + y == y;
    } else {
      assert u[0] in u;
      assert u + y == "" + [u[0]] + (u[1..] + y);
      OneSpaceSeparates("", u[0], u[1..] + y);
      LeadingSpaceIgnored(u[1..], y);
    }
  }

  // Outside comments a run of whitespace does nothing but separate words, across lines too.
  lemma WhitespaceOnlySeparates(x: string, u: string, y: string)
    requires OutsideComment(x) && Whitespace(u) && u != ""
    ensures Words(x + u + y) == Words(x) + Words(y)
  {
    assert u[0] in u;
    assert x + u + y == x + [u[0]] + (u[1..] + y);
    OneSpaceSeparates(x, u[0], u[1..] + y);
    LeadingSpaceIgnored(u[1..], y);
  }

  lemma SpacingIgnored(x: string, u: string, y: string)
    requires OutsideComment(x) && Whitespace(u)
    requires u != "" || x == "" || y == ""
    ensures Words(x + u + y) == Words(x) + Words(y)
  {
    if u != "" {
      WhitespaceOnlySeparates(x, u, y);
    } else if x == "" {
      assert x + u + y == y;
    } else {
      assert x + u + y == x;
    }
  }

  // A comment at the end of any line of a text does not change its words.
  lemma CommentIgnored(before: string, line: string, comment: string, after: string)
    requires LineStart(before) && LineEnd(after) && '\n' !in line && '\n' !in comment
    requires line == "" || line[|line| - 1] != '-'
    ensures Words(before + (line + "--" + comment) + after) == Words(before + line + after)
  {
    TrailingCommentIgnored(line, comment);
    WordsAround(before, line + "--" + comment, after);
    WordsAround(before, line, after);
  }

  lemma StepKeepsWords(a: string, b: string)
    requires LayoutStep(a, b)
    ensures Words(a) == Words(b)
  {
    SameUpToCaseIff(a, b);
    if SameUpToCase(a, b) {
      CaseIgnored(a);
      CaseIgnored(b);
    } else if SpacingDiffers(a, b) {
      var x, u, v, y :| SpacingChange(a, b, x, u, v, y);
      SpacingIgnored(x, u, y);
      SpacingIgnored(x, v, y);
    } else {
      var before, line, comment, after :| CommentAdded(a, b, before, line, comment, after);
      CommentIgnored(before, line, comment, after);
    }
  }

  lemma {:induction false} ChainKeepsWords(texts: seq<string>)
    requires texts != [] && Chain(texts)
    ensures Words(texts[0]) == Words(texts[|texts| - 1])
  {
    if |texts| > 1 {
      var rest := texts[1..];
      assert LayoutStep(texts[0], texts[0 + 1]) || LayoutStep(texts[0 + 1], texts[0]);
      if LayoutStep(texts[0], texts[1]) {
        StepKeepsWords(texts[0], texts[1]);
      } else {
        StepKeepsWords(texts[1], texts[0]);
      }
      forall i | 0 <= i < |rest| - 1 ensures LayoutStep(rest[i], rest[i + 1]) || LayoutStep(rest[i + 1], rest[i]) {
        assert rest[i] == texts[i + 1] && rest[i + 1] == texts[i + 1 + 1];
      }
      ChainKeepsWords(rest);
    }
  }

  // ----- Only layout is an equivalence

  lemma Same(a: string)
    ensures OnlyLayoutDiffers(a, a)
  {
    assert Links([a], a, a);
  }

  lemma OneStep(a: string, b: string)
    requires LayoutStep(a, b) || LayoutStep(b, a)
    ensures OnlyLayoutDiffers(a, b)
  {
    assert Links([a, b], a, b);
  }

  lemma Backwards(a: string, b: string)
    requires OnlyLayoutDiffers(a, b)
    ensures OnlyLayoutDiffers(b, a)
  {
    var texts :| Links(texts, a, b);
    var n := |texts|;
    var back := seq(n, i requires 0 <= i < n => texts[n - 1 - i]);
    forall i | 0 <= i < n - 1 ensures LayoutStep(back[i], back[i + 1]) || LayoutStep(back[i + 1], back[i]) {
      var k := n - 2 - i;
      assert back[i] == texts[k + 1] && back[i + 1] == texts[k];
    }
    assert Links(back, b, a);
  }

  lemma Onwards(a: string, b: string, c: string)
    requires OnlyLayoutDiffers(a, b) && OnlyLayoutDiffers(b, c)
    ensures OnlyLayoutDiffers(a, c)
  {
    var one :| Links(one, a, b);
    var two :| Links(two, b, c);
    var n := |one|;
    var all := one + two[1..];
    forall i | 0 <= i < |all| - 1 ensures LayoutStep(all[i], all[i + 1]) || LayoutStep(all[i + 1], all[i]) {
      if i < n - 1 {
        assert all[i] == one[i] && all[i + 1] == one[i + 1];
      } else {
        var k := i - (n - 1);
        assert all[i] == two[k] && all[i + 1] == two[k + 1];
      }
    }
    assert Links(all, a, c);
  }

  // ----- Layout changes lead to the canonical form

  function Uncommented(s: string): string
    decreases |s|
  {
    var head := UpTo(s, '\n');
    UpToIsPrefix(s, '\n');
    if |head| == |s| then CutComment(s) else CutComment(head) + "\n" + Uncommented(s[|head| + 1..])
  }

  // What is cut from a line is a trailing comment in the sense of a layout change.
  lemma {:induction false} CutIsAComment(line: string) returns (comment: string)
    requires CutComment(line) != line
    ensures line == CutComment(line) + "--" + comment
  {
    if |line| >= 2 && line[0] == '-' && line[1] == '-' {
      comment := line[2..];
    } else {
      assert line == [line[0]] + line[1..];
      comment := CutIsAComment(line[1..]);
    }
  }

  lemma {:induction false} CutEndsWithoutDash(line: string)
    requires CutComment(line) != line && CutComment(line) != ""
    ensures CutComment(line)[|CutComment(line)| - 1] != '-'
  {
    assert line == [line[0]] + line[1..];
    if CutComment(line[1..]) != "" {
      CutEndsWithoutDash(line[1..]);
    }
  }

  lemma UncommentLine(before: string, line: string, after: string)
    requires LineStart(before) && LineEnd(after) && '\n' !in line
    ensures OnlyLayoutDiffers(before + line + after, before + CutComment(line) + after)
  {
    var cut := CutComment(line);
    if cut == line {
      Same(before + line + after);
    } else {
      var comment := CutIsAComment(line);
      if cut != "" { CutEndsWithoutDash(line); }
      assert CommentAdded(before + cut + after, before + line + after, before, cut, comment, after);
      OneStep(before + line + after, before + cut + after);
    }
  }

  lemma UncommentFirst(before: string, head: string, rest: string)
    requires LineStart(before) && '\n' !in head
    ensures OnlyLayoutDiffers(before + (head + "\n" + rest), before + (CutComment(head) + "\n") + rest)
  {
    var after := "\n" + rest;
    UncommentLine(before, head, after);
    assert before + head + after == before + (head + "\n" + rest);
    assert before + CutComment(head) + after == before + (CutComment(head) + "\n") + rest;
  }

  lemma {:induction false} DropComments(before: string, s: string)
    requires LineStart(before)
    ensures OnlyLayoutDiffers(before + s, before + Uncommented(s))
    decreases |s|
  {
    var head := UpTo(s, '\n');
    UpToIsPrefix(s, '\n');
    if |head| == |s| {
      assert before + s + "" == before + s;
      assert before + CutComment(s) + "" == before + CutComment(s);
      UncommentLine(before, s, "");
    } else {
      var rest := s[|head| + 1..];
      var line := CutComment(head) + "\n";
      assert s == head + "\n" + rest;
      UncommentFirst(before, head, rest);
      DropComments(before + line, rest);
      assert before + (line + Uncommented(rest)) == before + line + Uncommented(rest);
      Onwards(before + s, before + line + rest, before + line + Uncommented(rest));
    }
  }

  lemma NoDashesAcross(a: string, b: string, c: char)
    requires NoDashes(a) && NoDashes(b) && c != '-'
    ensures NoDashes(a + [c] + b)
  {
    var all := a + [c] + b;
    forall i | 0 <= i < |all| - 1 ensures !(all[i] == '-' && all[i + 1] == '-') {
      if i < |a| - 1 {
        assert all[i] == a[i] && all[i + 1] == a[i + 1];
      } else if i > |a| {
        var k := i - |a| - 1;
        assert all[i] == b[k] && all[i + 1] == b[k + 1];
      }
    }
  }

  lemma {:induction false} UncommentedHasNoDashes(s: string)
    ensures NoDashes(Uncommented(s))
    decreases |s|
  {
    var head := UpTo(s, '\n');
    UpToIsPrefix(s, '\n');
    if |head| == |s| {
      CutHasNoDashes(s);
    } else {
      var rest := s[|head| + 1..];
      CutHasNoDashes(head);
      UncommentedHasNoDashes(rest);
      NoDashesAcross(CutComment(head), Uncommented(rest), '\n');
    }
  }

  function Joint(x: string): string {
    if x == "" then "" else " "
  }

  // The words, put after a text that may be empty.
  function Spaced(x: string, words: seq<string>): string {
    if words == [] then "" else Joint(x) + Join(words, " ")
  }

  lemma {:induction false} LeadingSpace(s: string) returns (u: string, rest: string)
    ensures s == u + rest && Whitespace(u) && (rest == "" || !IsSpace(rest[0]))
    ensures SplitWords(s) == SplitWords(rest)
  {
    if s == "" || !IsSpace(s[0]) {
      u, rest := "", s;
    } else {
      u, rest := LeadingSpace(s[1..]);
      u := [s[0]] + u;
    }
  }

  lemma RespaceOne(x: string, u: string, v: string, y: string)
    requires NoDashes(x) && Whitespace(u) && Whitespace(v)
    requires (u != "" && v != "") || x == "" || y == ""
    ensures OnlyLayoutDiffers(x + u + y, x + v + y)
  {
    assert SpacingChange(x + u + y, x + v + y, x, u, v, y);
    OneStep(x + u + y, x + v + y);
  }

  lemma JoinAfter(x: string, w: string, words: seq<string>)
    requires x != ""
    ensures Join([w] + words, " ") == w + Spaced(x, words)
  {
    assert ([w] + words)[1..] == words;
    if words == [] {
      assert w + "" == w;
    } else {
      assert w + " " + Join(words, " ") == w + (" " + Join(words, " "));
    }
  }

  lemma SpacedCons(x: string, w: string, words: seq<string>)
    requires w != ""
    ensures x + Spaced(x, [w] + words) == x + Joint(x) + w + Spaced(x + Joint(x) + w, words)
  {
    var next := x + Joint(x) + w;
    JoinAfter(next, w, words);
    Associate(x, Joint(x), w, Spaced(next, words));
  }

  lemma Associate(a: string, b: string, c: string, d: string)
    ensures a + (b + (c + d)) == a + b + c + d
  {
  }

  lemma NoDashesDrop(a: string, b: string)
    requires NoDashes(a + b)
    ensures NoDashes(a) && NoDashes(b)
  {
    var all := a + b;
    forall i | 0 <= i < |a| - 1 ensures !(a[i] == '-' && a[i + 1] == '-') {
      assert all[i] == a[i] && all[i + 1] == a[i + 1];
    }
    forall i | 0 <= i < |b| - 1 ensures !(b[i] == '-' && b[i + 1] == '-') {
      var k := |a| + i;
      assert all[k] == b[i] && all[k + 1] == b[i + 1];
    }
  }

  lemma NoDashesJoint(x: string, w: string)
    requires NoDashes(x) && NoDashes(w)
    ensures NoDashes(x + Joint(x) + w)
  {
    if x == "" {
      assert x + Joint(x) + w == w;
    } else {
      NoDashesAcross(x, w, ' ');
    }
  }

  lemma RespaceWord(x: string, u: string, w: string, tail: string)
    requires NoDashes(x) && NoDashes(w + tail) && Whitespace(u) && (x == "" || u != "")
    ensures OnlyLayoutDiffers(x + (u + (w + tail)), x + Joint(x) + w + tail)
    ensures NoDashes(x + Joint(x) + w) && NoDashes(tail)
  {
    NoDashesDrop(w, tail);
    NoDashesJoint(x, w);
    RespaceOne(x, u, Joint(x), w + tail);
    assert x + u + (w + tail) == x + (u + (w + tail));
    assert x + Joint(x) + (w + tail) == x + Joint(x) + w + tail;
  }

  lemma SplitFirstWord(rest: string) returns (w: string, tail: string)
    requires rest != "" && !IsSpace(rest[0])
    ensures w != "" && rest == w + tail && (tail == "" || IsSpace(tail[0]))
    ensures SplitWords(rest) == [w] + SplitWords(tail)
  {
    w := FirstWord(rest);
    tail := rest[|w|..];
    FirstWordHasNoSpace(rest);
  }

  // Step by step, one space is left between two words and none at the ends.
  lemma {:induction false} Respace(x: string, s: string)
    requires NoDashes(x) && NoDashes(s)
    requires x == "" || s == "" || IsSpace(s[0])
    ensures OnlyLayoutDiffers(x + s, x + Spaced(x, SplitWords(s)))
    decreases |s|
  {
    var u, rest := LeadingSpace(s);
    NoDashesDrop(u, rest);
    if rest == "" {
      assert x + s == x + u + rest;
      assert x + Spaced(x, SplitWords(s)) == x + "" + rest;
      RespaceOne(x, u, "", rest);
    } else {
      var w, tail := SplitFirstWord(rest);
      var next := x + Joint(x) + w;
      RespaceWord(x, u, w, tail);
      Respace(next, tail);
      SpacedCons(x, w, SplitWords(tail));
      Onwards(x + s, next + tail, next + Spaced(next, SplitWords(tail)));
    }
  }

  lemma {:induction false} LowerJoin(words: seq<string>)
    ensures Lower(Join(words, " ")) == Join(LowerAll(words), " ")
  {
    if words != [] {
      LowerJoin(words[1..]);
      LowerConcat(words[0] + " ", Join(words[1..], " "));
      LowerConcat(words[0], " ");
    }
  }

  lemma LowerTwice(s: string)
    ensures Lower(Lower(s)) == Lower(s)
  {
    LowerPointwise(s);
    LowerPointwise(Lower(s));
  }

  lemma LoweredIsLayout(s: string)
    ensures OnlyLayoutDiffers(s, Lower(s))
  {
    LowerTwice(s);
    SameUpToCaseIff(s, Lower(s));
    OneStep(s, Lower(s));
  }

  // Every text becomes its canonical form by changes of layout alone.
  lemma CanonicalIsLayout(s: string)
    ensures OnlyLayoutDiffers(s, Canonical(s))
  {
    var bare := Uncommented(s);
    var words := SplitWords(bare);
    var spaced := Join(words, " ");
    assert "" + s == s && "" + bare == bare && "" + Spaced("", words) == spaced;
    DropComments("", s);
    UncommentedHasNoDashes(s);
    Respace("", bare);
    Onwards(s, bare, spaced);
    LoweredIsLayout(spaced);
    Onwards(s, spaced, Lower(spaced));
    LowerJoin(words);
    SplitWordsAreWords(bare);
    LowerAllClean(words);
    WordsOfJoined(LowerAll(words));
    var texts :| Links(texts, s, Lower(spaced));
    ChainKeepsWords(texts);
  }

  // The normal form forgets layout and nothing else.
  lemma SameShapeIffOnlyLayoutDiffers(a: string, b: string)
    ensures Canonical(a) == Canonical(b) <==> OnlyLayoutDiffers(a, b)
    ensures Words(a) == Words(b) <==> OnlyLayoutDiffers(a, b)
  {
    SameShapeIffSameWords(a, b);
    if OnlyLayoutDiffers(a, b) {
      var texts :| Links(texts, a, b);
      ChainKeepsWords(texts);
    }
    if Canonical(a) == Canonical(b) {
      CanonicalIsLayout(a);
      CanonicalIsLayout(b);
      Backwards(b, Canonical(b));
      Onwards(a, Canonical(a), b);
    }
  }

  // So words that are only reordered or renamed make another shape.
  lemma OtherWordsAreNoLayout(a: seq<string>, b: seq<string>)
    requires AllClean(a) && AllClean(b)
    ensures OnlyLayoutDiffers(Join(a, " "), Join(b, " ")) <==> a == b
  {
    WordsOfJoined(a);
    WordsOfJoined(b);
    SameShapeIffOnlyLayoutDiffers(Join(a, " "), Join(b, " "));
  }
}
