/** The comparable shape of a computation: comments cut, whitespace collapsed,
    ASCII letters folded. */
module CanonicalText {
  import opened StringOrder

  // Unicode White_Space.
  predicate IsSpace(c: char) {
    || '\t' <= c <= '\r' || c == ' ' || c == '\U{0085}' || c == '\U{00A0}' || c == '\U{1680}'
    || '\U{2000}' <= c <= '\U{200A}' || c == '\U{2028}' || c == '\U{2029}' || c == '\U{202F}'
    || c == '\U{205F}' || c == '\U{3000}'
  }

  function LowerChar(c: char): char {
    if 'A' <= c <= 'Z' then c + 'a' - 'A' else c
  }

  function Lower(s: string): (r: string)
    ensures |r| == |s|
  {
    if s == [] then [] else [LowerChar(s[0])] + Lower(s[1..])
  }

  // The line without one trailing carriage return.
  function StripReturn(line: string): string {
    if line != [] && line[|line| - 1] == '\r' then line[..|line| - 1] else line
  }

  // Lines end with "\n" or "\r\n"; the last line needs no ending.
  function Lines(s: string): seq<string>
    decreases |s|
  {
    if s == [] then []
    else
      var head := UpTo(s, '\n');
      UpToIsPrefix(s, '\n');
      if |head| == |s| then [s] else [StripReturn(head)] + Lines(s[|head| + 1..])
  }

  lemma UpToIsPrefix(s: string, c: char)
    ensures |UpTo(s, c)| <= |s| && s[..|UpTo(s, c)|] == UpTo(s, c) && c !in UpTo(s, c)
    ensures |UpTo(s, c)| < |s| ==> s[|UpTo(s, c)|] == c
  {
  }

  // The line up to the first "--".
  function CutComment(line: string): (r: string)
    ensures |r| <= |line|
  {
    if line == [] then []
    else if |line| >= 2 && line[0] == '-' && line[1] == '-' then []
    else [line[0]] + CutComment(line[1..])
  }

  // The characters up to the first whitespace.
  function FirstWord(s: string): (w: string)
    ensures |w| <= |s| && s[..|w|] == w
    ensures s != [] && !IsSpace(s[0]) ==> w != []
  {
    if s == [] || IsSpace(s[0]) then [] else [s[0]] + FirstWord(s[1..])
  }

  function SplitWords(s: string): seq<string>
    decreases |s|
  {
    if s == [] then []
    else if IsSpace(s[0]) then SplitWords(s[1..])
    else [FirstWord(s)] + SplitWords(s[|FirstWord(s)|..])
  }

  function LowerAll(words: seq<string>): (r: seq<string>)
    ensures |r| == |words|
  {
    if words == [] then [] else [Lower(words[0])] + LowerAll(words[1..])
  }

  function LineWords(line: string): seq<string> {
    LowerAll(SplitWords(CutComment(line)))
  }

  function LinesWords(lines: seq<string>): seq<string> {
    if lines == [] then [] else LineWords(lines[0]) + LinesWords(lines[1..])
  }

  // The lower-cased words left after cutting each line at "--".
  function Words(s: string): seq<string> {
    LinesWords(Lines(s))
  }

  function Canonical(s: string): string {
    Join(Words(s), " ")
  }

  // A word as it can appear in a canonical text.
  ghost predicate Clean(w: string) {
    && w != []
    && (forall c | c in w :: !IsSpace(c) && LowerChar(c) == c)
    && (forall i | 0 <= i < |w| - 1 :: !(w[i] == '-' && w[i + 1] == '-'))
  }

  ghost predicate AllClean(words: seq<string>) {
    forall w | w in words :: Clean(w)
  }

  ghost predicate NoDashes(s: string) {
    forall i | 0 <= i < |s| - 1 :: !(s[i] == '-' && s[i + 1] == '-')
  }

  // ----- Every word is clean

  lemma {:induction false} CutHasNoDashes(line: string)
    ensures NoDashes(CutComment(line))
    ensures CutComment(line) <= line
  {
    if line != [] && !(|line| >= 2 && line[0] == '-' && line[1] == '-') {
      CutHasNoDashes(line[1..]);
      var rest := CutComment(line[1..]);
      var r := CutComment(line);
      assert r == [line[0]] + rest;
      forall i | 0 <= i < |r| - 1 ensures !(r[i] == '-' && r[i + 1] == '-') {
        if i > 0 {
          assert r[i] == rest[i - 1] && r[i + 1] == rest[i];
        } else {
          assert rest[0] == line[1..][0] == line[1];
        }
      }
    }
  }

  lemma {:induction false} FirstWordHasNoSpace(s: string)
    ensures forall c | c in FirstWord(s) :: !IsSpace(c)
    ensures |FirstWord(s)| < |s| ==> IsSpace(s[|FirstWord(s)|])
  {
    if s != [] && !IsSpace(s[0]) {
      FirstWordHasNoSpace(s[1..]);
    }
  }

  ghost predicate RawWord(w: string) {
    w != [] && NoDashes(w) && forall c | c in w :: !IsSpace(c)
  }

  lemma {:induction false} SplitWordsAreWords(s: string)
    requires NoDashes(s)
    ensures forall w | w in SplitWords(s) :: RawWord(w)
    decreases |s|
  {
    if s != [] {
      if IsSpace(s[0]) {
        SplitWordsAreWords(s[1..]);
      } else {
        var w := FirstWord(s);
        FirstWordHasNoSpace(s);
        assert NoDashes(s[|w|..]);
        assert RawWord(w);
        SplitWordsAreWords(s[|w|..]);
      }
    }
  }

  lemma {:induction false} LowerPointwise(w: string)
    ensures forall i | 0 <= i < |w| :: Lower(w)[i] == LowerChar(w[i])
  {
    if w != [] { LowerPointwise(w[1..]); }
  }

  lemma LowerIsClean(w: string)
    requires RawWord(w)
    ensures Clean(Lower(w))
  {
    LowerPointwise(w);
    var r := Lower(w);
    forall i | 0 <= i < |r| ensures !IsSpace(r[i]) && LowerChar(r[i]) == r[i] {
      assert w[i] in w;
    }
  }

  lemma {:induction false} LowerAllClean(words: seq<string>)
    requires forall w | w in words :: RawWord(w)
    ensures AllClean(LowerAll(words))
  {
    if words != [] {
      LowerIsClean(words[0]);
      LowerAllClean(words[1..]);
    }
  }

  lemma LineWordsClean(line: string)
    ensures AllClean(LineWords(line))
  {
    CutHasNoDashes(line);
    SplitWordsAreWords(CutComment(line));
    LowerAllClean(SplitWords(CutComment(line)));
  }

  lemma {:induction false} LinesWordsClean(lines: seq<string>)
    ensures AllClean(LinesWords(lines))
  {
    if lines != [] {
      LineWordsClean(lines[0]);
      LinesWordsClean(lines[1..]);
    }
  }

  // ----- Reading a canonical text back

  lemma {:induction false} JoinOfClean(words: seq<string>)
    requires AllClean(words)
    ensures NoDashes(Join(words, " "))
    ensures '\n' !in Join(words, " ")
    ensures words != [] ==> words[0] != [] && Join(words, " ") != [] && Join(words, " ")[0] == words[0][0]
  {
    if |words| == 1 {
      assert Clean(words[0]);
    } else if |words| > 1 {
      var rest := words[1..];
      assert forall w | w in rest :: w in words;
      JoinOfClean(rest);
      assert Clean(words[0]) && Clean(words[1]);
      var j, r := Join(words, " "), Join(rest, " ");
      assert j == words[0] + " " + r;
      var n := |words[0]|;
      forall i | 0 <= i < |j| - 1 ensures !(j[i] == '-' && j[i + 1] == '-') {
        if i < n - 1 {
          assert j[i] == words[0][i] && j[i + 1] == words[0][i + 1];
        } else if i > n {
          assert j[i] == r[i - n - 1] && j[i + 1] == r[i - n];
        }
      }
    }
  }

  lemma {:induction false} NoDashesUncut(s: string)
    requires NoDashes(s)
    ensures CutComment(s) == s
  {
    if s != [] {
      assert |s| >= 2 ==> !(s[0] == '-' && s[0 + 1] == '-');
      assert NoDashes(s[1..]) by {
        forall i | 0 <= i < |s[1..]| - 1 ensures !(s[1..][i] == '-' && s[1..][i + 1] == '-') {
          assert s[1..][i] == s[i + 1] && s[1..][i + 1] == s[i + 1 + 1];
        }
      }
      NoDashesUncut(s[1..]);
    }
  }

  lemma {:induction false} FirstWordOf(w: string, rest: string)
    requires forall c | c in w :: !IsSpace(c)
    requires rest == [] || IsSpace(rest[0])
    ensures FirstWord(w + rest) == w
  {
    if w == [] {
      assert w + rest == rest;
    } else {
      assert (w + rest)[1..] == w[1..] + rest;
      FirstWordOf(w[1..], rest);
    }
  }

  lemma {:induction false} SplitJoined(words: seq<string>)
    requires AllClean(words)
    ensures SplitWords(Join(words, " ")) == words
  {
    if words != [] {
      var w := words[0];
      assert Clean(w);
      var tail := if |words| == 1 then "" else " " + Join(words[1..], " ");
      var j := Join(words, " ");
      assert j == w + tail;
      FirstWordOf(w, tail);
      assert j[0] == w[0] && w[0] in w;
      assert j[|w|..] == tail;
      assert words == [w] + words[1..];
      if |words| > 1 {
        assert tail[1..] == Join(words[1..], " ");
        SplitJoined(words[1..]);
      }
    }
  }

  lemma {:induction false} LowerOfClean(words: seq<string>)
    requires AllClean(words)
    ensures LowerAll(words) == words
  {
    if words != [] {
      assert Clean(words[0]);
      LowerPointwise(words[0]);
      assert Lower(words[0]) == words[0];
      LowerOfClean(words[1..]);
      assert words == [words[0]] + words[1..];
    }
  }

  lemma OneLine(s: string)
    requires '\n' !in s
    ensures Lines(s) == if s == [] then [] else [s]
  {
    UpToStops(s, '\n', "");
    assert s + "" == s;
  }

  // A text made of clean words reads back as those words.
  lemma WordsOfJoined(words: seq<string>)
    requires AllClean(words)
    ensures Words(Join(words, " ")) == words
  {
    var j := Join(words, " ");
    JoinOfClean(words);
    OneLine(j);
    NoDashesUncut(j);
    SplitJoined(words);
    LowerOfClean(words);
    if words != [] {
      assert LinesWords([j]) == LineWords(j) + LinesWords([]);
    }
  }

  // Canonicalising twice is canonicalising once.
  lemma CanonicalIdempotent(s: string)
    ensures Words(Canonical(s)) == Words(s)
    ensures Canonical(Canonical(s)) == Canonical(s)
  {
    LinesWordsClean(Lines(s));
    WordsOfJoined(Words(s));
  }

  // Two texts have the same shape exactly when they have the same words.
  lemma SameShapeIffSameWords(a: string, b: string)
    ensures Canonical(a) == Canonical(b) <==> Words(a) == Words(b)
  {
    CanonicalIdempotent(a);
    CanonicalIdempotent(b);
  }

  // ----- Whitespace, comments and line concatenation

  lemma {:induction false} CutAppendSpace(line: string, c: char)
    requires IsSpace(c)
    ensures CutComment(line + [c]) == CutComment(line) || CutComment(line + [c]) == CutComment(line) + [c]
  {
    if line == [] {
      assert line + [c] == [c];
    } else {
      assert (line + [c])[1..] == line[1..] + [c];
      CutAppendSpace(line[1..], c);
    }
  }

  lemma {:induction false} SplitAppendSpace(s: string, c: char)
    requires IsSpace(c)
    ensures SplitWords(s + [c]) == SplitWords(s)
    decreases |s|
  {
    if s == [] {
      assert s + [c] == [c];
      assert SplitWords([c]) == SplitWords([c][1..]) == [];
    } else if IsSpace(s[0]) {
      assert (s + [c])[1..] == s[1..] + [c];
      SplitAppendSpace(s[1..], c);
    } else {
      var w := FirstWord(s);
      FirstWordHasNoSpace(s);
      assert s + [c] == w + (s[|w|..] + [c]);
      FirstWordOf(w, s[|w|..] + [c]);
      assert (s + [c])[|w|..] == s[|w|..] + [c];
      SplitAppendSpace(s[|w|..], c);
    }
  }

  lemma TrailingSpaceIgnored(line: string, c: char)
    requires IsSpace(c)
    ensures LineWords(line + [c]) == LineWords(line)
  {
    CutAppendSpace(line, c);
    SplitAppendSpace(CutComment(line), c);
  }

  lemma StripReturnIgnored(line: string)
    ensures LineWords(StripReturn(line)) == LineWords(line)
  {
    if line != [] && line[|line| - 1] == '\r' {
      assert line == StripReturn(line) + ['\r'];
      TrailingSpaceIgnored(StripReturn(line), '\r');
    }
  }

  lemma {:induction false} CutBeforeComment(line: string, comment: string)
    requires line == "" || line[|line| - 1] != '-'
    ensures CutComment(line + "--" + comment) == CutComment(line)
  {
    var all := line + "--" + comment;
    if line == "" {
      assert all == "--" + comment;
    } else {
      assert all[0] == line[0] && all[1..] == line[1..] + "--" + comment;
      assert |line| >= 2 ==> all[1] == line[1];
      CutBeforeComment(line[1..], comment);
    }
  }

  // A trailing comment does not change the words of a line. (Behind a "-" the cut would
  // fall one character earlier.)
  lemma TrailingCommentIgnored(line: string, comment: string)
    requires line == "" || line[|line| - 1] != '-'
    ensures LineWords(line + "--" + comment) == LineWords(line)
  {
    CutBeforeComment(line, comment);
  }

  lemma {:induction false} LinesWordsConcat(a: seq<string>, b: seq<string>)
    ensures LinesWords(a + b) == LinesWords(a) + LinesWords(b)
  {
    if a == [] {
      assert a + b == b;
    } else {
      assert (a + b)[1..] == a[1..] + b;
      LinesWordsConcat(a[1..], b);
    }
  }

  lemma WordsOfFirstLine(head: string, rest: string)
    requires '\n' !in head
    ensures Words(head + "\n" + rest) == LineWords(head) + Words(rest)
  {
    var all := head + "\n" + rest;
    assert all == head + ("\n" + rest);
    UpToStops(head, '\n', "\n" + rest);
    assert all[|head| + 1..] == rest;
    assert Lines(all) == [StripReturn(head)] + Lines(rest);
    assert Lines(all)[1..] == Lines(rest);
    StripReturnIgnored(head);
  }

  lemma WordsOfOneLine(line: string)
    requires '\n' !in line
    ensures Words(line) == LineWords(line)
  {
    OneLine(line);
    if line != [] {
      assert LinesWords([line]) == LineWords(line) + LinesWords([]);
    }
  }

  // Concatenating lines concatenates words.
  lemma {:induction false} WordsOfConcatenatedLines(a: string, b: string)
    ensures Words(a + "\n" + b) == Words(a) + Words(b)
    decreases |a|
  {
    var head := UpTo(a, '\n');
    UpToIsPrefix(a, '\n');
    if |head| == |a| {
      WordsOfFirstLine(a, b);
      WordsOfOneLine(a);
    } else {
      var rest := a[|head| + 1..];
      assert a == head + "\n" + rest;
      assert a + "\n" + b == head + "\n" + (rest + "\n" + b);
      WordsOfFirstLine(head, rest);
      WordsOfFirstLine(head, rest + "\n" + b);
      WordsOfConcatenatedLines(rest, b);
    }
  }

  // ----- Spacing and case

  lemma {:induction false} SplitAtSpace(x: string, c: char, y: string)
    requires IsSpace(c)
    ensures SplitWords(x + [c] + y) == SplitWords(x) + SplitWords(y)
    decreases |x|
  {
    var all := x + [c] + y;
    if x == [] {
      assert all == [c] + y;
    } else if IsSpace(x[0]) {
      assert all[1..] == x[1..] + [c] + y;
      SplitAtSpace(x[1..], c, y);
    } else {
      var w := FirstWord(x);
      var rest := x[|w|..] + [c] + y;
      FirstWordHasNoSpace(x);
      assert all == w + rest;
      FirstWordOf(w, rest);
      assert all[|w|..] == rest;
      SplitAtSpace(x[|w|..], c, y);
    }
  }

  lemma {:induction false} CutAfterSpace(x: string, c: char, y: string)
    requires NoDashes(x) && IsSpace(c)
    ensures CutComment(x + [c] + y) == x + [c] + CutComment(y)
  {
    var all := x + [c] + y;
    if x == [] {
      assert all == [c] + y;
    } else {
      assert all[1..] == x[1..] + [c] + y;
      assert NoDashes(x[1..]) by {
        forall i | 0 <= i < |x[1..]| - 1 ensures !(x[1..][i] == '-' && x[1..][i + 1] == '-') {
          assert x[1..][i] == x[i + 1] && x[1..][i + 1] == x[i + 1 + 1];
        }
      }
      assert |x| >= 2 ==> !(x[0] == '-' && x[0 + 1] == '-');
      CutAfterSpace(x[1..], c, y);
    }
  }

  lemma {:induction false} LowerAllConcat(a: seq<string>, b: seq<string>)
    ensures LowerAll(a + b) == LowerAll(a) + LowerAll(b)
  {
    if a == [] {
      assert a + b == b;
    } else {
      assert (a + b)[1..] == a[1..] + b;
      LowerAllConcat(a[1..], b);
    }
  }

  // Outside a comment a whitespace character does nothing but separate words.
  lemma SpaceOnlySeparates(x: string, c: char, y: string)
    requires NoDashes(x) && IsSpace(c)
    ensures LineWords(x + [c] + y) == LineWords(x) + LineWords(y)
  {
    CutAfterSpace(x, c, y);
    NoDashesUncut(x);
    SplitAtSpace(x, c, CutComment(y));
    LowerAllConcat(SplitWords(x), SplitWords(CutComment(y)));
  }

  lemma {:induction false} LowerCut(line: string)
    ensures CutComment(Lower(line)) == Lower(CutComment(line))
  {
    if line != [] {
      LowerPointwise(line);
      assert Lower(line)[1..] == Lower(line[1..]);
      LowerCut(line[1..]);
    }
  }

  lemma {:induction false} LowerFirstWord(s: string)
    ensures FirstWord(Lower(s)) == Lower(FirstWord(s))
  {
    if s != [] {
      assert Lower(s)[1..] == Lower(s[1..]);
      LowerFirstWord(s[1..]);
    }
  }

  lemma {:induction false} LowerDrop(s: string, n: nat)
    requires n <= |s|
    ensures Lower(s)[n..] == Lower(s[n..]) && Lower(s)[..n] == Lower(s[..n])
  {
    LowerPointwise(s);
    LowerPointwise(s[n..]);
    LowerPointwise(s[..n]);
  }

  lemma {:induction false} LowerSplit(s: string)
    ensures SplitWords(Lower(s)) == LowerAll(SplitWords(s))
    decreases |s|
  {
    if s != [] {
      if IsSpace(s[0]) {
        LowerDrop(s, 1);
        LowerSplit(s[1..]);
      } else {
        LowerFirstWord(s);
        LowerDrop(s, |FirstWord(s)|);
        LowerSplit(s[|FirstWord(s)|..]);
      }
    }
  }

  lemma {:induction false} LowerAllTwice(words: seq<string>)
    ensures LowerAll(LowerAll(words)) == LowerAll(words)
  {
    if words != [] {
      LowerPointwise(words[0]);
      LowerPointwise(Lower(words[0]));
      assert Lower(Lower(words[0])) == Lower(words[0]);
      LowerAllTwice(words[1..]);
    }
  }

  lemma {:induction false} LowerConcat(a: string, b: string)
    ensures Lower(a + b) == Lower(a) + Lower(b)
  {
    if a == [] {
      assert a + b == b;
    } else {
      assert (a + b)[1..] == a[1..] + b;
      LowerConcat(a[1..], b);
    }
  }

  lemma LowerKeepsNewlinesOut(s: string)
    requires '\n' !in s
    ensures '\n' !in Lower(s)
  {
    LowerPointwise(s);
  }

  lemma LowerLine(line: string)
    ensures LineWords(Lower(line)) == LineWords(line)
  {
    LowerCut(line);
    LowerSplit(CutComment(line));
    LowerAllTwice(SplitWords(CutComment(line)));
  }

  // Case does not matter.
  lemma {:induction false} CaseIgnored(s: string)
    ensures Words(Lower(s)) == Words(s)
    decreases |s|
  {
    var head := UpTo(s, '\n');
    UpToIsPrefix(s, '\n');
    LowerLine(head);
    LowerKeepsNewlinesOut(head);
    if |head| == |s| {
      assert s == s[..|s|] == head;
      WordsOfOneLine(s);
      WordsOfOneLine(Lower(s));
    } else {
      var rest := s[|head| + 1..];
      assert s == head + "\n" + rest;
      LowerConcat(head + "\n", rest);
      LowerConcat(head, "\n");
      assert Lower(s) == Lower(head) + "\n" + Lower(rest);
      WordsOfFirstLine(head, rest);
      WordsOfFirstLine(Lower(head), Lower(rest));
      CaseIgnored(rest);
    }
  }

  // ----- The loop

  lemma {:induction false} JoinSnoc(words: seq<string>, w: string)
    ensures Join(words + [w], " ") == if words == [] then w else Join(words, " ") + " " + w
  {
    if |words| > 0 {
      assert (words + [w])[1..] == words[1..] + [w];
      JoinSnoc(words[1..], w);
      if |words| == 1 {
        assert words[1..] == [];
      }
    }
  }

  // One more word: a space goes in front exactly when something was written before.
  lemma AppendWord(done: seq<string>, w: string)
    requires AllClean(done) && Clean(w)
    ensures AllClean(done + [w])
    ensures Join(done + [w], " ") == (if Join(done, " ") == "" then "" else Join(done, " ") + " ") + w
  {
    JoinOfClean(done);
    JoinSnoc(done, w);
  }

  lemma {:induction false} LowerAllAt(words: seq<string>, j: nat)
    requires j < |words|
    ensures LowerAll(words)[j] == Lower(words[j])
  {
    if j > 0 { LowerAllAt(words[1..], j - 1); }
  }

  lemma LinesWordsSnoc(lines: seq<string>, i: nat)
    requires i < |lines|
    ensures LinesWords(lines[..i + 1]) == LinesWords(lines[..i]) + LineWords(lines[i])
  {
    assert lines[..i + 1] == lines[..i] + [lines[i]];
    LinesWordsConcat(lines[..i], [lines[i]]);
    assert LinesWords([lines[i]]) == LineWords(lines[i]) + LinesWords([]);
  }

  // The words of one line, appended to what earlier lines gave.
  method AppendLine(line: string, written: string, ghost done: seq<string>) returns (out: string)
    requires AllClean(done) && written == Join(done, " ")
    ensures AllClean(done + LineWords(line)) && out == Join(done + LineWords(line), " ")
  {
    out := written;
    var words := SplitWords(CutComment(line));
    ghost var lowered := LineWords(line);
    LineWordsClean(line);
    var j := 0;
    assert done + lowered[..0] == done;
    while j < |words|
      invariant 0 <= j <= |words|
      invariant AllClean(done + lowered[..j])
      invariant out == Join(done + lowered[..j], " ")
    {
      LowerAllAt(words, j);
      AppendWord(done + lowered[..j], lowered[j]);
      if out != "" { out := out + " "; }
      out := out + Lower(words[j]);
      assert done + lowered[..j + 1] == done + lowered[..j] + [lowered[j]];
      j := j + 1;
    }
    assert lowered[..j] == lowered;
  }

  method Canonicalize(computation: string) returns (out: string)
    ensures out == Canonical(computation)
  {
    out := "";
    var lines := Lines(computation);
    var i := 0;
    while i < |lines|
      invariant 0 <= i <= |lines|
      invariant AllClean(LinesWords(lines[..i]))
      invariant out == Join(LinesWords(lines[..i]), " ")
    {
      out := AppendLine(lines[i], out, LinesWords(lines[..i]));
      LinesWordsSnoc(lines, i);
      i := i + 1;
    }
    assert lines[..i] == lines;
  }
}
