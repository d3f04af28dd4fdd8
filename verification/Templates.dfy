/** When the segments that splitting leaves are the literal parts of a template: the texts
    that a list of segments accepts, and splitting at separators that stand in holes only. */
module Templates {
  import opened Options
  import opened ParameterHoles
  import opened StringOrder

  // The segments the search looks at.
  function Filled(segments: seq<string>): seq<string> {
    if segments == [] then []
    else (if segments[0] == "" then [] else [segments[0]]) + Filled(segments[1..])
  }

  function Concat(segments: seq<string>): string {
    if segments == [] then "" else segments[0] + Concat(segments[1..])
  }

  // ----- What a list of segments accepts determines its non-empty segments

  lemma SameTailSameFit(first: string, a: seq<string>, b: seq<string>, text: string)
    requires forall tail | |tail| <= |text| :: Fits(a, tail) <==> Fits(b, tail)
    ensures Fits([first] + a, text) <==> Fits([first] + b, text)
  {
    LeftmostIsEnough(first, a, text);
    LeftmostIsEnough(first, b, text);
  }

  lemma {:induction false} FitsFilled(segments: seq<string>, text: string)
    ensures Fits(segments, text) <==> Fits(Filled(segments), text)
    decreases |segments|
  {
    if segments != [] {
      var (first, rest) := (segments[0], segments[1..]);
      assert segments == [first] + rest;
      forall tail ensures Fits(rest, tail) <==> Fits(Filled(rest), tail) {
        FitsFilled(rest, tail);
      }
      if first == "" {
        assert Filled(segments) == Filled(rest);
        EmptySegment(rest, text);
      } else {
        SameTailSameFit(first, rest, Filled(rest), text);
      }
    }
  }

  lemma {:induction false} FilledIsFull(segments: seq<string>)
    ensures forall i | 0 <= i < |Filled(segments)| :: Filled(segments)[i] != ""
  {
    if segments != [] { FilledIsFull(segments[1..]); }
  }

  // Nothing shorter than the segments together is accepted, and of that length only they.
  lemma {:induction false} FitsLength(segments: seq<string>, text: string)
    requires Fits(segments, text)
    ensures |text| >= |Concat(segments)|
    ensures |text| == |Concat(segments)| ==> text == Concat(segments)
    decreases |segments|
  {
    if segments != [] {
      var (first, rest) := (segments[0], segments[1..]);
      assert segments == [first] + rest;
      LeftmostIsEnough(first, rest, text);
      var at := Find(text, first).value;
      var tail := text[at + |first|..];
      CutAtFind(text, first);
      FitsLength(rest, tail);
      LengthsAdd(text, text[..at], first, tail, Concat(rest));
    }
  }

  lemma LengthsAdd(text: string, gap: string, first: string, tail: string, least: string)
    requires text == gap + first + tail
    requires |tail| >= |least| && (|tail| == |least| ==> tail == least)
    ensures |text| >= |first + least| && (|text| == |first + least| ==> text == first + least)
  {
    if |text| == |first + least| { assert gap == ""; }
  }

  // A text that begins with the first segment: only what follows it matters.
  lemma FitsBehindFirst(first: string, rest: seq<string>, text: string)
    ensures Fits([first] + rest, first + text) <==> Fits(rest, text)
  {
    LeftmostIsEnough(first, rest, first + text);
    assert first <= first + text && (first + text)[|first|..] == text;
  }

  lemma {:induction false} ConcatFits(segments: seq<string>)
    ensures Fits(segments, Concat(segments))
  {
    if segments == [] {
      NothingLeftFits("");
    } else {
      ConcatFits(segments[1..]);
      FitsBehindFirst(segments[0], segments[1..], Concat(segments[1..]));
      assert segments == [segments[0]] + segments[1..];
    }
  }

  // More text in front is a gap.
  lemma {:induction false} FitsBehindGap(segments: seq<string>, gap: string, text: string)
    requires Fits(segments, text)
    ensures Fits(segments, gap + text)
  {
    var gaps: seq<string> :| |gaps| == |segments| + 1 && text == Fill(gaps, segments);
    FillFirstGap(gaps, segments, gap);
  }

  ghost predicate AcceptSame(a: seq<string>, b: seq<string>) {
    forall text :: Fits(a, text) <==> Fits(b, text)
  }

  ghost predicate Full(segments: seq<string>) {
    forall i | 0 <= i < |segments| :: segments[i] != ""
  }

  // A character other than two given ones.
  function Other(c: char, d: char): (x: char)
    ensures x != c && x != d
  {
    if 'x' != c && 'x' != d then 'x' else if 'y' != c && 'y' != d then 'y' else 'z'
  }

  lemma SameConcat(a: seq<string>, b: seq<string>)
    requires AcceptSame(a, b)
    ensures Concat(a) == Concat(b)
  {
    ConcatFits(a);
    ConcatFits(b);
    FitsLength(a, Concat(b));
    FitsLength(b, Concat(a));
  }

  // A character put behind the shorter first segment of one list is refused by the other.
  lemma FirstIsNotShorter(a: seq<string>, b: seq<string>)
    requires a != [] && b != [] && a[0] != "" && Concat(a) == Concat(b)
    requires |a[0]| < |b[0]|
    ensures exists text :: Fits(a, text) && !Fits(b, text)
  {
    var (first, rest) := (a[0], a[1..]);
    var n := |first|;
    var x := Other(b[0][n - 1], b[0][n]);
    var text := first + ([x] + Concat(rest));
    AcceptsOneMore(first, rest, x);
    MisfitAfter(b[0], b[1..], text, n, x);
    assert a == [first] + rest && b == [b[0]] + b[1..];
  }

  lemma AcceptsOneMore(first: string, rest: seq<string>, x: char)
    ensures Fits([first] + rest, first + ([x] + Concat(rest)))
  {
    ConcatFits(rest);
    FitsBehindGap(rest, [x], Concat(rest));
    FitsBehindFirst(first, rest, [x] + Concat(rest));
  }

  lemma MisfitAfter(first: string, rest: seq<string>, text: string, n: nat, x: char)
    requires |text| == |first| + |Concat(rest)| + 1 && 0 < n < |first|
    requires text[n] == x && x != first[n - 1] && x != first[n]
    ensures !Fits([first] + rest, text)
  {
    var found := Find(text, first);
    if found.Some? {
      FindOccurs(text, first);
      OccursLate(first, text, n, x, found.value);
    }
    Refuses(first, rest, text);
  }

  lemma Refuses(first: string, rest: seq<string>, text: string)
    requires var found := Find(text, first);
      found.Some? ==> |text| < found.value + |first| + |Concat(rest)|
    ensures !Fits([first] + rest, text)
  {
    LeftmostIsEnough(first, rest, text);
    var found := Find(text, first);
    if found.Some? { TooShort(rest, text[found.value + |first|..]); }
  }

  lemma OccursLate(first: string, text: string, n: nat, x: char, at: nat)
    requires 0 < n < |first| && n < |text|
    requires text[n] == x && x != first[n - 1] && x != first[n]
    requires OccursAt(text, first, at)
    ensures at >= 2
  {
  }

  lemma TooShort(segments: seq<string>, text: string)
    requires |text| < |Concat(segments)|
    ensures !Fits(segments, text)
  {
    if Fits(segments, text) { FitsLength(segments, text); }
  }

  lemma FullHasText(segments: seq<string>)
    requires Full(segments)
    ensures segments == [] <==> Concat(segments) == ""
  {
    if segments != [] { assert segments[0] != ""; }
  }

  // Lists without empty segments that accept the same texts are the same list.
  lemma {:induction false} AcceptanceDetermines(a: seq<string>, b: seq<string>)
    requires Full(a) && Full(b) && AcceptSame(a, b)
    ensures a == b
    decreases |a|
  {
    SameConcat(a, b);
    FullHasText(a);
    FullHasText(b);
    if a != [] && b != [] {
      if |a[0]| < |b[0]| { FirstIsNotShorter(a, b); }
      if |b[0]| < |a[0]| { FirstIsNotShorter(b, a); }
      assert a[0] == Concat(a)[..|a[0]|] && b[0] == Concat(b)[..|b[0]|];
      var first := a[0];
      assert a == [first] + a[1..] && b == [first] + b[1..];
      forall text ensures Fits(a[1..], text) <==> Fits(b[1..], text) {
        FitsBehindFirst(first, a[1..], text);
        FitsBehindFirst(first, b[1..], text);
        assert Fits(a, first + text) <==> Fits(b, first + text);
      }
      AcceptanceDetermines(a[1..], b[1..]);
    }
  }

  // ----- The meaning of a template: any text in the holes, the literal parts as they are

  lemma {:induction false} FillNothing(outer: seq<string>, inner: seq<string>)
    requires |outer| == |inner| + 1 && forall i | 0 <= i < |inner| :: inner[i] == ""
    ensures Fill(outer, inner) == Concat(outer)
  {
    assert outer == [outer[0]] + outer[1..];
    if inner == [] {
      assert outer[1..] == [];
    } else {
      FillNothing(outer[1..], inner[1..]);
    }
  }

  lemma FitsBeforeGap(segments: seq<string>, text: string, gap: string)
    requires Fits(segments, text)
    ensures Fits(segments, text + gap)
  {
    var gaps: seq<string> :| |gaps| == |segments| + 1 && text == Fill(gaps, segments);
    FillLastGap(gaps, segments, gap);
  }

  lemma {:induction false} FillLastGap(gaps: seq<string>, segments: seq<string>, extra: string)
    requires |gaps| == |segments| + 1
    ensures Fill(gaps[|segments| := gaps[|segments|] + extra], segments) == Fill(gaps, segments) + extra
  {
    var gaps' := gaps[|segments| := gaps[|segments|] + extra];
    if segments != [] {
      assert gaps'[1..] == gaps[1..][|segments| - 1 := gaps[1..][|segments| - 1] + extra];
      FillLastGap(gaps[1..], segments[1..], extra);
    }
  }

  // An accepted text may have anything in front or behind, an instance of a template that
  // begins or ends with literal text may not.
  lemma AcceptedInstancesHaveOpenEnds(literals: seq<string>, segments: seq<string>)
    requires literals != []
    requires forall text :: Fits(segments, text) <==> InstanceOf(literals, text)
    ensures OpenEnds(literals)
  {
    var n := |literals| - 1;
    var values := Copies("", n);
    CopiesOnly("", n);
    var plain := Fill(literals, values);
    assert InstanceOf(literals, plain);
    var (first, last) := (literals[0], literals[n]);
    var x := Other(if first == "" then 'x' else first[0], if last == "" then 'x' else last[|last| - 1]);
    FitsBehindGap(segments, [x], plain);
    FitsBeforeGap(segments, [x] + plain, [x]);
    var text := [x] + plain + [x];
    assert InstanceOf(literals, text);
    var vs: seq<string> :| |literals| == |vs| + 1 && text == Fill(literals, vs);
    InstanceEnds(literals, vs);
    assert text[0] == x && text[|text| - 1] == x;
  }

  // Segments accept exactly the instances of a template if and only if the template begins
  // and ends with a hole and the non-empty segments are its non-empty literal parts.
  lemma AcceptsInstancesIff(literals: seq<string>, segments: seq<string>)
    requires literals != []
    ensures (forall text :: Fits(segments, text) <==> InstanceOf(literals, text))
      <==> OpenEnds(literals) && Filled(segments) == Filled(literals)
  {
    if OpenEnds(literals) {
      forall text ensures Fits(literals, text) <==> InstanceOf(literals, text) {
        if Fits(literals, text) { OpenEndsFitsAreInstances(literals, text); }
        if InstanceOf(literals, text) { InstancesFit(literals, text); }
      }
    }
    forall text ensures Fits(segments, text) <==> Fits(Filled(segments), text) { FitsFilled(segments, text); }
    forall text ensures Fits(literals, text) <==> Fits(Filled(literals), text) { FitsFilled(literals, text); }
    if forall text :: Fits(segments, text) <==> InstanceOf(literals, text) {
      AcceptedInstancesHaveOpenEnds(literals, segments);
      FilledIsFull(segments);
      FilledIsFull(literals);
      AcceptanceDetermines(Filled(segments), Filled(literals));
    }
  }

  // ----- Splitting at separators that stand in holes only

  // No occurrence of the pattern in x + y begins in x.
  ghost predicate NoStart(pattern: string, x: string, y: string) {
    forall k | 0 <= k < |x| :: !(pattern <= x[k..] + y)
  }

  lemma NoStartTail(pattern: string, x: string, y: string)
    requires x != "" && NoStart(pattern, x, y)
    ensures !(pattern <= x + y) && NoStart(pattern, x[1..], y)
  {
    assert x[0..] == x;
    forall k | 0 <= k < |x[1..]| ensures !(pattern <= x[1..][k..] + y) {
      assert x[1..][k..] == x[k + 1..];
    }
  }

  lemma {:induction false} FindPast(pattern: string, x: string, y: string)
    requires NoStart(pattern, x, y)
    ensures var found := Find(y, pattern);
      Find(x + y, pattern) == if found.Some? then Some(|x| + found.value) else None
  {
    if x == "" {
      assert x + y == y;
    } else {
      NoStartTail(pattern, x, y);
      assert (x + y)[1..] == x[1..] + y;
      FindPast(pattern, x[1..], y);
    }
  }

  // Text in which no separator begins joins the first piece.
  lemma SplitPast(separator: string, x: string, y: string)
    requires separator != "" && NoStart(separator, x, y)
    ensures Split(x + y, separator) == [x + Split(y, separator)[0]] + Split(y, separator)[1..]
  {
    FindPast(separator, x, y);
    var found := Find(y, separator);
    if found.Some? {
      SumCut(x, y, found.value);
      SumCut(x, y, found.value + |separator|);
      HeadReplaced(x + y[..found.value], y[..found.value], Split(y[found.value + |separator|..], separator));
    }
  }

  lemma SumCut(x: string, y: string, n: nat)
    requires n <= |y|
    ensures (x + y)[..|x| + n] == x + y[..n] && (x + y)[|x| + n..] == y[n..]
  {
  }

  lemma HeadReplaced(x: string, y: string, rest: seq<string>)
    ensures [x] + rest == [x] + ([y] + rest)[1..]
  {
  }

  lemma SplitAtHole(separator: string, x: string, y: string)
    requires separator != "" && NoStart(separator, x, separator + y)
    ensures Split(x + (separator + y), separator) == [x] + Split(y, separator)
  {
    var text := separator + y;
    assert separator <= text && text[|separator|..] == y && text[..0] == "";
    assert Split(text, separator) == [""] + Split(y, separator);
    SplitPast(separator, x, text);
    assert x + "" == x;
  }

  // The template cut at the holes whose spelling is in `done`.
  function CutAt(literals: seq<string>, holes: seq<string>, done: set<string>): (pieces: seq<string>)
    requires |literals| == |holes| + 1
    ensures pieces != []
  {
    if holes == [] then [literals[0]]
    else
      var rest := CutAt(literals[1..], holes[1..], done);
      if holes[0] in done then [literals[0]] + rest else [literals[0] + holes[0] + rest[0]] + rest[1..]
  }

  // The spelling begins nowhere but at a hole spelled so, apart from holes already cut.
  ghost predicate InHolesOnly(spelling: string, literals: seq<string>, holes: seq<string>, done: set<string>)
    requires |literals| == |holes| + 1
    decreases |holes|
  {
    if holes == [] then NoStart(spelling, literals[0], "")
    else
      var behind := Fill(literals[1..], holes[1..]);
      && NoStart(spelling, literals[0], holes[0] + behind)
      && (holes[0] == spelling || holes[0] in done || NoStart(spelling, holes[0], behind))
      && InHolesOnly(spelling, literals[1..], holes[1..], done)
  }

  lemma {:induction false} CutBegins(literals: seq<string>, holes: seq<string>, done: set<string>)
    requires |literals| == |holes| + 1
    ensures CutAt(literals, holes, done)[0] <= Fill(literals, holes)
  {
    if holes != [] && holes[0] !in done {
      CutBegins(literals[1..], holes[1..], done);
    }
  }

  // What does not begin in front of a text does not begin in front of a beginning of it.
  lemma NoStartShorter(pattern: string, x: string, y: string, z: string)
    requires NoStart(pattern, x, z) && y <= z
    ensures NoStart(pattern, x, y)
  {
    forall k | 0 <= k < |x| ensures !(pattern <= x[k..] + y) {
      assert x[k..] + y <= x[k..] + z;
    }
  }

  lemma {:induction false} CutAtNothing(literals: seq<string>, holes: seq<string>)
    requires |literals| == |holes| + 1
    ensures CutAt(literals, holes, {}) == [Fill(literals, holes)]
  {
    if holes != [] { CutAtNothing(literals[1..], holes[1..]); }
  }

  lemma {:induction false} CutEverywhere(literals: seq<string>, holes: seq<string>, done: set<string>)
    requires |literals| == |holes| + 1 && forall i | 0 <= i < |holes| :: holes[i] in done
    ensures CutAt(literals, holes, done) == literals
  {
    if holes == [] {
      assert literals == [literals[0]];
    } else {
      CutEverywhere(literals[1..], holes[1..], done);
      assert literals == [literals[0]] + literals[1..];
    }
  }

  // One round of splitting cuts the template at the holes with that spelling.
  lemma {:induction false} SplitEachCuts(spelling: string, literals: seq<string>, holes: seq<string>, done: set<string>)
    requires |literals| == |holes| + 1 && spelling != ""
    requires InHolesOnly(spelling, literals, holes, done)
    ensures SplitEach(CutAt(literals, holes, done), spelling) == CutAt(literals, holes, done + {spelling})
    decreases |holes|
  {
    if holes == [] {
      SplitOfLast(spelling, literals[0]);
    } else {
      var rest := CutAt(literals[1..], holes[1..], done);
      SplitEachCuts(spelling, literals[1..], holes[1..], done);
      CutBegins(literals[1..], holes[1..], done);
      var behind := Fill(literals[1..], holes[1..]);
      if holes[0] in done {
        SplitBehindCut(spelling, literals[0], rest, holes[0] + behind);
      } else if holes[0] == spelling {
        SplitInHole(spelling, literals[0], rest, behind);
      } else {
        SplitOverHole(spelling, literals[0], holes[0], rest, behind);
      }
    }
  }

  lemma SplitOfLast(spelling: string, text: string)
    requires spelling != "" && NoStart(spelling, text, "")
    ensures Split(text, spelling) == [text] && SplitEach([text], spelling) == [text]
  {
    assert text + "" == text;
    SplitPast(spelling, text, "");
    assert Find("", spelling) == None;
    assert [text][1..] == [];
  }

  lemma SplitBehindCut(spelling: string, literal: string, rest: seq<string>, behind: string)
    requires spelling != "" && NoStart(spelling, literal, behind)
    ensures SplitEach([literal] + rest, spelling) == [literal] + SplitEach(rest, spelling)
  {
    NoStartShorter(spelling, literal, "", behind);
    SplitOfLast(spelling, literal);
    assert ([literal] + rest)[1..] == rest;
  }

  lemma SplitEachOf(first: string, rest: seq<string>, spelling: string)
    requires spelling != ""
    ensures SplitEach([first] + rest, spelling) == Split(first, spelling) + SplitEach(rest, spelling)
  {
    assert ([first] + rest)[1..] == rest;
  }

  lemma SplitInHole(spelling: string, literal: string, rest: seq<string>, behind: string)
    requires spelling != "" && rest != [] && rest[0] <= behind
    requires NoStart(spelling, literal, spelling + behind)
    ensures SplitEach([literal + spelling + rest[0]] + rest[1..], spelling) == [literal] + SplitEach(rest, spelling)
  {
    assert spelling + rest[0] <= spelling + behind;
    NoStartShorter(spelling, literal, spelling + rest[0], spelling + behind);
    SplitAtHole(spelling, literal, rest[0]);
    assert literal + spelling + rest[0] == literal + (spelling + rest[0]);
    SplitEachOf(literal + spelling + rest[0], rest[1..], spelling);
    Regroup([literal], Split(rest[0], spelling), SplitEach(rest[1..], spelling));
  }

  lemma Regroup<T>(a: seq<T>, b: seq<T>, c: seq<T>)
    ensures a + b + c == a + (b + c)
  {
  }

  lemma SplitOverHole(spelling: string, literal: string, hole: string, rest: seq<string>, behind: string)
    requires spelling != "" && rest != [] && rest[0] <= behind
    requires NoStart(spelling, literal, hole + behind) && NoStart(spelling, hole, behind)
    ensures var pieces := SplitEach(rest, spelling);
      pieces != []
      && SplitEach([literal + hole + rest[0]] + rest[1..], spelling) == [literal + hole + pieces[0]] + pieces[1..]
  {
    assert hole + rest[0] <= hole + behind;
    NoStartShorter(spelling, literal, hole + rest[0], hole + behind);
    NoStartShorter(spelling, hole, rest[0], behind);
    var first := Split(rest[0], spelling);
    SplitPast(spelling, hole, rest[0]);
    SplitPast(spelling, literal, hole + rest[0]);
    var text := literal + hole + rest[0];
    assert text == literal + (hole + rest[0]);
    assert literal + (hole + first[0]) == literal + hole + first[0];
    assert Split(text, spelling) == [literal + hole + first[0]] + first[1..];
    SplitEachOf(text, rest[1..], spelling);
    Rehead(literal + hole + first[0], first, SplitEach(rest[1..], spelling));
  }

  lemma Rehead(head: string, first: seq<string>, rest: seq<string>)
    requires first != []
    ensures [head] + first[1..] + rest == [head] + (first + rest)[1..]
    ensures (first + rest)[0] == first[0]
  {
  }

  // Every spelling in its turn begins in its own holes only, or in holes cut before.
  ghost predicate ReadsApart(literals: seq<string>, holes: seq<string>, spellings: seq<string>)
    requires |literals| == |holes| + 1
  {
    && (forall i | 0 <= i < |holes| :: holes[i] in spellings)
    && (forall k | 0 <= k < |spellings| :: InHolesOnly(spellings[k], literals, holes, Elements(spellings[..k])))
  }

  // Then splitting leaves exactly the literal parts.
  lemma SplitAllLeavesLiterals(literals: seq<string>, holes: seq<string>, spellings: seq<string>)
    requires |literals| == |holes| + 1 && NoneEmpty(spellings) && ReadsApart(literals, holes, spellings)
    ensures SplitAll([Fill(literals, holes)], spellings) == literals
  {
    NothingCutYet(spellings);
    CutAtNothing(literals, holes);
    SplitRounds(literals, holes, spellings, 0);
    CutEverywhere(literals, holes, Elements(spellings));
  }

  lemma NothingCutYet(spellings: seq<string>)
    ensures Elements(spellings[..0]) == {} && spellings[0..] == spellings
  {
  }

  lemma {:induction false} SplitRounds(literals: seq<string>, holes: seq<string>, spellings: seq<string>, k: nat)
    requires |literals| == |holes| + 1 && NoneEmpty(spellings) && k <= |spellings|
    requires ReadsApart(literals, holes, spellings)
    ensures SplitAll(CutAt(literals, holes, Elements(spellings[..k])), spellings[k..])
         == CutAt(literals, holes, Elements(spellings))
    decreases |spellings| - k
  {
    if k == |spellings| {
      assert spellings[..k] == spellings;
    } else {
      var p := spellings[k];
      assert spellings[k..][0] == p && spellings[k..][1..] == spellings[k + 1..];
      assert spellings[..k + 1] == spellings[..k] + [p];
      ElementsSnoc(spellings[..k], p);
      SplitEachCuts(p, literals, holes, Elements(spellings[..k]));
      SplitRounds(literals, holes, spellings, k + 1);
    }
  }
}
