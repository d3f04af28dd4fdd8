/** The texts the hole search is given are canonical ones. Which lists of segments can be
    told apart by such texts, and when the search accepts a template's instances only. */
module ReceivedTexts {
  import opened Options
  import opened StringOrder
  import opened CanonicalText
  import opened ParameterHoles
  import opened Templates

  // A text that the comparison can receive: it is its own canonical form.
  ghost predicate Received(text: string) {
    Canonical(text) == text
  }

  // ----- Canonical texts, character by character

  predicate Usual(c: char) {
    c == ' ' || (!IsSpace(c) && LowerChar(c) == c)
  }

  predicate Letter(c: char) {
    Usual(c) && c != ' ' && c != '-'
  }

  // Two characters that do not stand side by side.
  predicate Clash(c: char, d: char) {
    (c == ' ' && d == ' ') || (c == '-' && d == '-')
  }

  predicate Tidy(before: char, s: string)
    decreases |s|
  {
    s == "" || (Usual(s[0]) && !Clash(before, s[0]) && Tidy(s[0], s[1..]))
  }

  function Last(before: char, s: string): char {
    if s == "" then before else s[|s| - 1]
  }

  // The text can stand behind the character, up to the end.
  predicate TidyAfter(before: char, s: string) {
    Tidy(before, s) && Last(before, s) != ' '
  }

  lemma {:induction false} TidyConcat(before: char, s: string, t: string)
    ensures Tidy(before, s + t) <==> Tidy(before, s) && Tidy(Last(before, s), t)
    ensures Last(before, s + t) == Last(Last(before, s), t)
    decreases |s|
  {
    if s == "" {
      assert s + t == t;
    } else {
      assert (s + t)[1..] == s[1..] + t;
      TidyConcat(s[0], s[1..], t);
    }
  }

  lemma {:induction false} WordIsTidy(before: char, w: string)
    requires forall c | c in w :: !IsSpace(c) && LowerChar(c) == c
    requires NoDashes(w) && (w != "" ==> !Clash(before, w[0]))
    ensures Tidy(before, w)
    decreases |w|
  {
    if w != "" {
      assert w[0] in w;
      if |w| > 1 { assert !(w[0] == '-' && w[0 + 1] == '-'); }
      assert NoDashes(w[1..]) by {
        forall i | 0 <= i < |w[1..]| - 1 ensures !(w[1..][i] == '-' && w[1..][i + 1] == '-') {
          assert w[1..][i] == w[i + 1] && w[1..][i + 1] == w[i + 1 + 1];
        }
      }
      assert |w| > 1 ==> w[1] in w;
      WordIsTidy(w[0], w[1..]);
    }
  }

  lemma {:induction false} JoinIsTidy(words: seq<string>)
    requires AllClean(words) && words != []
    ensures TidyAfter(' ', Join(words, " "))
  {
    var w := words[0];
    assert Clean(w);
    assert w[|w| - 1] in w && w[0] in w;
    WordIsTidy(' ', w);
    if |words| > 1 {
      var rest := Join(words[1..], " ");
      JoinIsTidy(words[1..]);
      JoinOfClean(words[1..]);
      TidyConcat(' ', w, " " + rest);
      assert (" " + rest)[1..] == rest;
      assert w + " " + rest == w + (" " + rest);
    }
  }

  lemma {:induction false} TidyHasNoDashes(before: char, s: string)
    requires Tidy(before, s)
    ensures NoDashes(s) && forall c | c in s :: Usual(c)
    decreases |s|
  {
    if s != "" {
      TidyHasNoDashes(s[0], s[1..]);
      assert |s| > 1 ==> !Clash(s[0], s[1..][0]);
      forall i | 0 <= i < |s| - 1 ensures !(s[i] == '-' && s[i + 1] == '-') {
        if i > 0 { assert s[1..][i - 1] == s[i] && s[1..][i - 1 + 1] == s[i + 1]; }
      }
    }
  }

  // One word and the space behind it, if there is more.
  lemma TidyHead(s: string) returns (w: string, rest: string)
    requires TidyAfter(' ', s) && s != ""
    ensures w != "" && if rest == "" then s == w else s == w + " " + rest && TidyAfter(' ', rest)
    ensures SplitWords(s) == [w] + SplitWords(rest)
  {
    TidyHasNoDashes(' ', s);
    w := FirstWord(s);
    FirstWordHasNoSpace(s);
    var tail := s[|w|..];
    assert s == w + tail;
    if tail == "" {
      rest := "";
    } else {
      rest := tail[1..];
      assert tail[0] in s && tail[0] == ' ';
      TidyConcat(' ', w, tail);
      assert tail == " " + rest;
    }
  }

  lemma {:induction false} TidyIsJoined(s: string)
    requires TidyAfter(' ', s)
    ensures Join(SplitWords(s), " ") == s
    decreases |s|
  {
    if s != "" {
      var w, rest := TidyHead(s);
      if rest != "" {
        TidyIsJoined(rest);
        assert ([w] + SplitWords(rest))[1..] == SplitWords(rest);
      }
    }
  }

  lemma TidyIsReceived(text: string)
    requires TidyAfter(' ', text)
    ensures Received(text)
  {
    TidyHasNoDashes(' ', text);
    TidyIsJoined(text);
    UsualIsLower(text);
    WordsOfOneLine(text);
    NoDashesUncut(text);
    LowerSplit(text);
  }

  lemma {:induction false} UsualIsLower(text: string)
    requires forall c | c in text :: Usual(c)
    ensures Lower(text) == text
  {
    if text != "" {
      assert text[0] in text;
      UsualIsLower(text[1..]);
      assert text == [text[0]] + text[1..];
    }
  }

  lemma ReceivedIsTidy(text: string)
    requires Received(text) && text != ""
    ensures TidyAfter(' ', text)
  {
    LinesWordsClean(Lines(text));
    JoinIsTidy(Words(text));
  }

  lemma ReceivedIff(text: string)
    ensures Received(text) <==> text == "" || TidyAfter(' ', text)
  {
    if TidyAfter(' ', text) { TidyIsReceived(text); }
    if Received(text) && text != "" { ReceivedIsTidy(text); }
    if text == "" { WordsOfOneLine(text); }
  }

  // ----- The shortest texts that a list of segments accepts

  ghost predicate TidyPiece(s: string) {
    s == "" || (Usual(s[0]) && Tidy(s[0], s[1..]))
  }

  ghost predicate TidyPieces(segments: seq<string>) {
    forall i | 0 <= i < |segments| :: segments[i] != "" && TidyPiece(segments[i])
  }

  // Whether something must stand in front of the segments, or of the end.
  function Need(before: char, segments: seq<string>): nat {
    if segments == [] then (if before == ' ' then 1 else 0)
    else if segments[0] != "" && Clash(before, segments[0][0]) then 1 else 0
  }

  function Least(before: char, segments: seq<string>): nat
    decreases |segments|
  {
    Need(before, segments)
    + if segments == [] then 0 else |segments[0]| + Least(Last(before, segments[0]), segments[1..])
  }

  function Shortest(before: char, segments: seq<string>, x: char): string
    decreases |segments|
  {
    (if Need(before, segments) == 1 then [x] else "")
    + if segments == [] then "" else segments[0] + Shortest(Last(before, segments[0]), segments[1..], x)
  }

  lemma TidySegment(before: char, segment: string, text: string)
    requires segment != "" && TidyPiece(segment) && !Clash(before, segment[0])
    requires TidyAfter(Last(before, segment), text)
    ensures TidyAfter(before, segment + text)
  {
    TidyConcat(before, segment, text);
  }

  lemma TidyLetter(before: char, x: char, text: string)
    requires Letter(x) && TidyAfter(x, text)
    ensures TidyAfter(before, [x] + text)
  {
    assert ([x] + text)[1..] == text;
    TidyConcat(before, [x], text);
  }

  lemma {:induction false} ShortestIsAccepted(before: char, segments: seq<string>, x: char)
    requires TidyPieces(segments) && Letter(x)
    ensures TidyAfter(before, Shortest(before, segments, x))
    ensures Fits(segments, Shortest(before, segments, x))
    ensures |Shortest(before, segments, x)| == Least(before, segments)
    decreases |segments|
  {
    if segments == [] {
      NothingLeftFits(Shortest(before, segments, x));
    } else {
      var (first, rest) := (segments[0], segments[1..]);
      var tail := Shortest(Last(before, first), rest, x);
      ShortestIsAccepted(Last(before, first), rest, x);
      FitsBehindFirst(first, rest, tail);
      assert segments == [first] + rest;
      if Need(before, segments) == 1 {
        TidySegment(x, first, tail);
        TidyLetter(before, x, first + tail);
        FitsBehindGap(segments, [x], first + tail);
      } else {
        TidySegment(before, first, tail);
        assert "" + (first + tail) == first + tail;
      }
    }
  }

  // What stands in front of the first segment, and what that leaves.
  lemma AcceptedHead(before: char, segments: seq<string>, text: string) returns (gap: string, tail: string)
    requires segments != [] && segments[0] != "" && TidyAfter(before, text) && Fits(segments, text)
    ensures text == gap + (segments[0] + tail) && Fits(segments[1..], tail)
    ensures TidyAfter(Last(before, segments[0]), tail)
    ensures |gap| >= Need(before, segments)
  {
    gap, tail := FitsHead(segments, text);
    var first := segments[0];
    TidyConcat(before, gap, first + tail);
    TidyConcat(Last(before, gap), first, tail);
    if gap == "" { assert (first + tail)[0] == first[0]; }
  }

  lemma {:induction false} NothingShorter(before: char, segments: seq<string>, text: string)
    requires TidyPieces(segments) && TidyAfter(before, text) && Fits(segments, text)
    ensures |text| >= Least(before, segments)
    decreases |segments|
  {
    if segments != [] {
      var gap, tail := AcceptedHead(before, segments, text);
      NothingShorter(Last(before, segments[0]), segments[1..], tail);
    }
  }

  // In a text that is hardly longer, the first segment stands near the beginning.
  lemma FirstIsNear(before: char, segments: seq<string>, text: string) returns (g: nat)
    requires segments != [] && TidyPieces(segments) && TidyAfter(before, text) && Fits(segments, text)
    ensures OccursAt(text, segments[0], g)
    ensures g + Least(before, segments) <= |text| + Need(before, segments)
  {
    var gap, tail := AcceptedHead(before, segments, text);
    NothingShorter(Last(before, segments[0]), segments[1..], tail);
    g := |gap|;
  }

  lemma FirstAtFront(before: char, segments: seq<string>, text: string)
    requires segments != [] && TidyPieces(segments) && TidyAfter(before, text) && Fits(segments, text)
    requires Need(before, segments) == 0 && |text| <= Least(before, segments)
    ensures segments[0] <= text
  {
    var g := FirstIsNear(before, segments, text);
    assert forall k | 0 <= k < |segments[0]| :: text[0 + k] == segments[0][k];
  }

  lemma NearFront(before: char, segments: seq<string>, text: string, n: nat)
    requires segments != [] && TidyPieces(segments) && TidyAfter(before, text) && Fits(segments, text)
    requires Need(before, segments) == 0 && |text| <= Least(before, segments) + 1
    requires 0 < n < |segments[0]| && n < |text|
    ensures text[n] == segments[0][n] || text[n] == segments[0][n - 1]
  {
    var g := FirstIsNear(before, segments, text);
    Straddles(text, segments[0], g, n);
  }

  lemma Straddles(text: string, first: string, g: nat, n: nat)
    requires OccursAt(text, first, g) && g <= 1 && 0 < n < |first| && n < |text|
    ensures text[n] == first[n] || text[n] == first[n - 1]
  {
    assert text[g + (n - g)] == first[n - g];
  }

  lemma FrontOfShort(segments: seq<string>, text: string)
    requires segments != [] && segments[0] != "" && Fits(segments, text) && |text| <= 1
    ensures text != "" && text[0] == segments[0][0]
  {
    var gap, tail := FitsHead(segments, text);
    assert gap == "";
  }

  // ----- Canonical texts tell lists of segments apart

  ghost predicate AcceptSameAfter(before: char, a: seq<string>, b: seq<string>) {
    forall text | TidyAfter(before, text) :: Fits(a, text) <==> Fits(b, text)
  }

  lemma SameLeast(before: char, a: seq<string>, b: seq<string>)
    requires TidyPieces(a) && TidyPieces(b) && AcceptSameAfter(before, a, b)
    ensures Least(before, a) == Least(before, b)
  {
    ShortestIsAccepted(before, a, 'x');
    ShortestIsAccepted(before, b, 'x');
    NothingShorter(before, b, Shortest(before, a, 'x'));
    NothingShorter(before, a, Shortest(before, b, 'x'));
  }

  // Nothing is required by no segments only.
  lemma NoSegmentsApart(before: char, b: seq<string>)
    requires TidyPieces(b) && b != []
    ensures !AcceptSameAfter(before, [], b)
  {
    var x := Other(b[0][0], ' ');
    var text := Shortest(before, [], x);
    ShortestIsAccepted(before, [], x);
    if Fits(b, text) { FrontOfShort(b, text); }
  }

  // A letter is needed in front of both lists or of none.
  lemma SameNeed(before: char, a: seq<string>, b: seq<string>)
    requires a != [] && b != [] && TidyPieces(a) && TidyPieces(b)
    requires AcceptSameAfter(before, a, b) && Least(before, a) == Least(before, b)
    ensures Need(before, a) <= Need(before, b)
  {
    if Need(before, a) == 1 && Need(before, b) == 0 {
      var x := Other(b[0][0], ' ');
      var text := Shortest(before, a, x);
      ShortestIsAccepted(before, a, x);
      assert text[0] == x;
      FirstAtFront(before, b, text);
    }
  }

  lemma AfterLetter(x: char, segments: seq<string>, d: char)
    requires Letter(x) && TidyPieces(segments)
    ensures Need(x, segments) == 0 && Least(x, segments) + Need(d, segments) == Least(d, segments)
  {
  }

  // A letter put behind the shorter first segment of one list is refused by the other.
  lemma FirstNotShorter(before: char, a: seq<string>, b: seq<string>)
    requires a != [] && b != [] && TidyPieces(a) && TidyPieces(b)
    requires AcceptSameAfter(before, a, b) && Least(before, a) == Least(before, b)
    requires Need(before, a) == 0 && Need(before, b) == 0
    ensures |a[0]| >= |b[0]|
  {
    if |a[0]| < |b[0]| {
      var (first, rest, n) := (a[0], a[1..], |a[0]|);
      var x := Other(b[0][n - 1], b[0][n]);
      var tail := [x] + Shortest(x, rest, x);
      ShortestIsAccepted(x, rest, x);
      AfterLetter(x, rest, Last(before, first));
      FitsBehindGap(rest, [x], Shortest(x, rest, x));
      FitsBehindFirst(first, rest, tail);
      assert a == [first] + rest;
      TidyLetter(Last(before, first), x, Shortest(x, rest, x));
      TidySegment(before, first, tail);
      assert (first + tail)[n] == x;
      NearFront(before, b, first + tail, n);
    }
  }

  // What is left of the text behind the first occurrence.
  function Behind(text: string, first: string): Option<string> {
    match Find(text, first)
    case None => None
    case Some(i) => Some(text[i + |first|..])
  }

  lemma FitsByBehind(first: string, rest: seq<string>, text: string)
    ensures Fits([first] + rest, text) <==> Behind(text, first).Some? && Fits(rest, Behind(text, first).value)
  {
    LeftmostIsEnough(first, rest, text);
  }

  lemma BehindLetter(x: char, text: string, first: string)
    requires first != "" && first[0] != x
    ensures Behind([x] + text, first) == Behind(text, first)
  {
    var more := [x] + text;
    assert more[1..] == text && more[0] == x && !(first <= more);
    var found := Find(text, first);
    if found.Some? { DropTwice(more, 1, found.value + |first|); }
  }

  lemma LetterInFront(x: char, segments: seq<string>, text: string)
    requires segments != [] && segments[0] != "" && segments[0][0] != x
    ensures Fits(segments, [x] + text) <==> Fits(segments, text)
  {
    var (first, rest) := (segments[0], segments[1..]);
    assert segments == [first] + rest;
    FitsByBehind(first, rest, [x] + text);
    FitsByBehind(first, rest, text);
    BehindLetter(x, text, first);
  }

  // Lists of tidy segments that accept the same texts behind a character are the same list.
  lemma {:induction false} ReceivedDetermines(before: char, a: seq<string>, b: seq<string>)
    requires TidyPieces(a) && TidyPieces(b) && AcceptSameAfter(before, a, b)
    ensures a == b
    decreases |a|, Need(before, a)
  {
    if a == [] || b == [] {
      if a != [] { NoSegmentsApart(before, a); }
      if b != [] { NoSegmentsApart(before, b); }
    } else {
      SameLeast(before, a, b);
      SameNeed(before, a, b);
      SameNeed(before, b, a);
      if Need(before, a) == 1 {
        forall text | TidyAfter('x', text) ensures Fits(a, text) <==> Fits(b, text) {
          TidyLetter(before, 'x', text);
          LetterInFront('x', a, text);
          LetterInFront('x', b, text);
        }
        ReceivedDetermines('x', a, b);
      } else {
        FirstNotShorter(before, a, b);
        FirstNotShorter(before, b, a);
        SameFirst(before, a, b);
        SameRest(before, a, b);
        ReceivedDetermines(Last(before, a[0]), a[1..], b[1..]);
        assert a == [a[0]] + a[1..] && b == [b[0]] + b[1..];
      }
    }
  }

  lemma SameFirst(before: char, a: seq<string>, b: seq<string>)
    requires a != [] && b != [] && TidyPieces(a) && TidyPieces(b) && |a[0]| == |b[0]|
    requires AcceptSameAfter(before, a, b) && Least(before, a) == Least(before, b)
    requires Need(before, a) == 0 && Need(before, b) == 0
    ensures a[0] == b[0]
  {
    var text := Shortest(before, a, 'x');
    ShortestIsAccepted(before, a, 'x');
    FirstAtFront(before, b, text);
    assert a[0] <= text;
  }

  lemma SameRest(before: char, a: seq<string>, b: seq<string>)
    requires a != [] && b != [] && TidyPieces(a) && a[0] == b[0]
    requires AcceptSameAfter(before, a, b) && Need(before, a) == 0
    ensures AcceptSameAfter(Last(before, a[0]), a[1..], b[1..])
  {
    var first := a[0];
    assert a == [first] + a[1..] && b == [first] + b[1..];
    forall text | TidyAfter(Last(before, first), text) ensures Fits(a[1..], text) <==> Fits(b[1..], text) {
      TidySegment(before, first, text);
      FitsBehindFirst(first, a[1..], text);
      FitsBehindFirst(first, b[1..], text);
    }
  }

  // ----- When the search accepts a template's instances only

  lemma {:induction false} FillIsTidy(before: char, outer: seq<string>, inner: seq<string>)
    requires |outer| == |inner| + 1 && Tidy(before, Fill(outer, inner))
    ensures forall i | 0 <= i < |outer| :: TidyPiece(outer[i])
    decreases |outer|
  {
    if inner != [] {
      var tail := Fill(outer[1..], inner[1..]);
      TidyConcat(before, outer[0] + inner[0], tail);
      TidyConcat(before, outer[0], inner[0]);
      FillIsTidy(Last(before, outer[0] + inner[0]), outer[1..], inner[1..]);
      forall i | 0 <= i < |outer| ensures TidyPiece(outer[i]) {
        if i > 0 { assert outer[i] == outer[1..][i - 1]; }
      }
    }
  }

  lemma {:induction false} FilledPieces(segments: seq<string>)
    requires forall i | 0 <= i < |segments| :: TidyPiece(segments[i])
    ensures TidyPieces(Filled(segments))
  {
    if segments != [] { FilledPieces(segments[1..]); }
  }

  lemma FilledIsTidy(outer: seq<string>, inner: seq<string>)
    requires |outer| == |inner| + 1 && Received(Fill(outer, inner))
    ensures TidyPieces(Filled(outer))
  {
    var text := Fill(outer, inner);
    ReceivedIff(text);
    FillIsTidy(' ', outer, inner);
    FilledPieces(outer);
  }

  lemma LettersAround(text: string, x: char)
    requires Received(text) && Letter(x)
    ensures Received([x] + text + [x])
  {
    ReceivedIff(text);
    assert [x] + text + [x] == [x] + (text + [x]);
    LetterBehind(x, text, x);
    TidyLetter(' ', x, text + [x]);
    TidyIsReceived([x] + (text + [x]));
  }

  lemma LetterBehind(before: char, text: string, x: char)
    requires text == "" || TidyAfter(' ', text)
    requires Letter(before) && Letter(x)
    ensures TidyAfter(before, text + [x])
  {
    TidyConcat(before, text, [x]);
    if text != "" { assert Tidy(before, text); }
  }

  ghost predicate AcceptsInstancesOnly(literals: seq<string>, segments: seq<string>) {
    forall text | Received(text) :: Fits(segments, text) <==> InstanceOf(literals, text)
  }

  // The stored text itself, with one letter in front and one behind, is accepted; it is
  // an instance only of a template with a hole at both ends.
  lemma LettersNeedOpenEnds(literals: seq<string>, segments: seq<string>, stored: string)
    requires literals != [] && Received(stored) && Fits(segments, stored)
    requires AcceptsInstancesOnly(literals, segments)
    ensures OpenEnds(literals)
  {
    var (first, last) := (literals[0], literals[|literals| - 1]);
    var x := Other(if first == "" then ' ' else first[0], if last == "" then ' ' else last[|last| - 1]);
    var text := [x] + stored + [x];
    LettersAround(stored, x);
    FitsBehindGap(segments, [x], stored);
    FitsBeforeGap(segments, [x] + stored, [x]);
    assert InstanceOf(literals, text);
    var values: seq<string> :| |literals| == |values| + 1 && text == Fill(literals, values);
    InstanceEnds(literals, values);
    assert text[0] == x && text[|text| - 1] == x;
  }

  lemma OpenEndsAcceptInstances(literals: seq<string>, segments: seq<string>)
    requires OpenEnds(literals) && Filled(segments) == Filled(literals)
    ensures AcceptsInstancesOnly(literals, segments)
  {
    forall text ensures Fits(segments, text) <==> InstanceOf(literals, text) {
      FitsFilled(segments, text);
      FitsFilled(literals, text);
      if Fits(literals, text) { OpenEndsFitsAreInstances(literals, text); }
      if InstanceOf(literals, text) { InstancesFit(literals, text); }
    }
  }

  lemma OpenEndsAcceptSame(literals: seq<string>, segments: seq<string>)
    requires OpenEnds(literals) && AcceptsInstancesOnly(literals, segments)
    ensures AcceptSameAfter(' ', Filled(segments), Filled(literals))
  {
    forall text | TidyAfter(' ', text) ensures Fits(Filled(segments), text) <==> Fits(Filled(literals), text) {
      ReceivedIff(text);
      FitsFilled(segments, text);
      FitsFilled(literals, text);
      if Fits(literals, text) { OpenEndsFitsAreInstances(literals, text); }
      if InstanceOf(literals, text) { InstancesFit(literals, text); }
    }
  }

  lemma InstancesOnlyNeed(literals: seq<string>, holes: seq<string>, segments: seq<string>, spellings: seq<string>)
    requires |literals| == |holes| + 1 && |segments| == |spellings| + 1
    requires Fill(literals, holes) == Fill(segments, spellings) && Received(Fill(literals, holes))
    requires AcceptsInstancesOnly(literals, segments)
    ensures OpenEnds(literals) && Filled(segments) == Filled(literals)
  {
    InstancesFit(segments, Fill(segments, spellings));
    LettersNeedOpenEnds(literals, segments, Fill(literals, holes));
    FilledIsTidy(literals, holes);
    FilledIsTidy(segments, spellings);
    OpenEndsAcceptSame(literals, segments);
    ReceivedDetermines(' ', Filled(segments), Filled(literals));
  }

  // On canonical texts the search accepts exactly the instances of a template if and only
  // if the template begins and ends with a hole and the non-empty segments are its
  // non-empty literal parts.
  lemma ReceivedInstancesIff(literals: seq<string>, holes: seq<string>, segments: seq<string>, spellings: seq<string>)
    requires |literals| == |holes| + 1 && |segments| == |spellings| + 1
    requires Fill(literals, holes) == Fill(segments, spellings) && Received(Fill(literals, holes))
    ensures AcceptsInstancesOnly(literals, segments) <==> OpenEnds(literals) && Filled(segments) == Filled(literals)
  {
    if OpenEnds(literals) && Filled(segments) == Filled(literals) { OpenEndsAcceptInstances(literals, segments); }
    if AcceptsInstancesOnly(literals, segments) { InstancesOnlyNeed(literals, holes, segments, spellings); }
  }
}
