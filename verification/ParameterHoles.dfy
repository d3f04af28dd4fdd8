/** Texts with holes: the literal segments a stored computation splits into at its
    parameter placeholders, and the greedy in-order search for them in the text
    that ran. */
module ParameterHoles {
  import opened Options

  // outer[0] + inner[0] + outer[1] + ... + inner[n-1] + outer[n]
  function Fill(outer: seq<string>, inner: seq<string>): string
    requires |outer| == |inner| + 1
  {
    if inner == [] then outer[0] else outer[0] + inner[0] + Fill(outer[1..], inner[1..])
  }

  // The segments occur in the text in order and without overlap: some gaps around
  // and between them make up the text.
  ghost predicate Fits(segments: seq<string>, text: string) {
    exists gaps: seq<string> :: |gaps| == |segments| + 1 && text == Fill(gaps, segments)
  }

  // The text is the segments with some value in each hole between two of them.
  ghost predicate InstanceOf(segments: seq<string>, text: string) {
    exists values: seq<string> :: |segments| == |values| + 1 && text == Fill(segments, values)
  }

  // ----- Finding and splitting

  ghost predicate OccursAt(text: string, pattern: string, i: nat) {
    i + |pattern| <= |text| && forall k | 0 <= k < |pattern| :: text[i + k] == pattern[k]
  }

  // The leftmost occurrence.
  function Find(text: string, pattern: string): (r: Option<nat>)
    ensures r.Some? ==> r.value + |pattern| <= |text|
  {
    if pattern <= text then Some(0)
    else if text == [] then None
    else
      match Find(text[1..], pattern)
      case None => None
      case Some(i) => Some(i + 1)
  }

  lemma DropTwice<T>(s: seq<T>, a: nat, b: nat)
    requires a + b <= |s|
    ensures s[a..][b..] == s[a + b..]
  {
  }

  lemma HeadApart<T>(s: seq<T>, i: nat)
    requires i < |s|
    ensures s[i..] == [s[i]] + s[i + 1..]
  {
  }

  lemma {:induction false} FindOccurs(text: string, pattern: string)
    ensures var r := Find(text, pattern); r.Some? ==> OccursAt(text, pattern, r.value)
  {
    if !(pattern <= text) && text != [] {
      FindOccurs(text[1..], pattern);
    }
  }

  lemma {:induction false} FindIsLeftmost(text: string, pattern: string, i: nat)
    requires OccursAt(text, pattern, i)
    ensures var r := Find(text, pattern); r.Some? && r.value <= i
  {
    if !(pattern <= text) {
      assert i == 0 ==> pattern <= text;
      FindIsLeftmost(text[1..], pattern, i - 1);
    }
  }

  // The pieces between leftmost, non-overlapping occurrences of the separator.
  function Split(text: string, separator: string): (pieces: seq<string>)
    requires separator != []
    ensures pieces != []
    decreases |text|
  {
    match Find(text, separator)
    case None => [text]
    case Some(i) => [text[..i]] + Split(text[i + |separator|..], separator)
  }

  function SplitEach(pieces: seq<string>, separator: string): (r: seq<string>)
    requires separator != []
    ensures |r| >= |pieces|
  {
    if pieces == [] then [] else Split(pieces[0], separator) + SplitEach(pieces[1..], separator)
  }

  ghost predicate NoneEmpty(separators: seq<string>) {
    forall i | 0 <= i < |separators| :: separators[i] != []
  }

  function SplitAll(pieces: seq<string>, separators: seq<string>): seq<string>
    requires NoneEmpty(separators)
    decreases |separators|
  {
    if separators == [] then pieces else SplitAll(SplitEach(pieces, separators[0]), separators[1..])
  }

  // ----- Splitting loses nothing

  lemma {:induction false} FillConcat(o1: seq<string>, i1: seq<string>, sep: string, o2: seq<string>, i2: seq<string>)
    requires |o1| == |i1| + 1 && |o2| == |i2| + 1
    ensures |o1 + o2| == |i1 + [sep] + i2| + 1
    ensures Fill(o1 + o2, i1 + [sep] + i2) == Fill(o1, i1) + sep + Fill(o2, i2)
  {
    if i1 == [] {
      assert (o1 + o2)[1..] == o2;
      assert (i1 + [sep] + i2)[1..] == i2;
    } else {
      assert (o1 + o2)[1..] == o1[1..] + o2;
      assert (i1 + [sep] + i2)[1..] == i1[1..] + [sep] + i2;
      FillConcat(o1[1..], i1[1..], sep, o2, i2);
    }
  }

  function Copies(x: string, n: nat): (r: seq<string>)
    ensures |r| == n
  {
    if n == 0 then [] else [x] + Copies(x, n - 1)
  }

  lemma CutAtFind(text: string, pattern: string)
    ensures var r := Find(text, pattern);
      r.Some? ==> text == text[..r.value] + pattern + text[r.value + |pattern|..]
  {
    FindOccurs(text, pattern);
  }

  lemma FillPrepends(first: string, separator: string, more: seq<string>, rest: string)
    requires more != [] && rest == Fill(more, Copies(separator, |more| - 1))
    ensures first + separator + rest == Fill([first] + more, Copies(separator, |more|))
  {
    assert Copies(separator, |more|)[1..] == Copies(separator, |more| - 1);
    assert ([first] + more)[1..] == more;
  }

  // Putting the separator back between the pieces gives the text.
  lemma {:induction false} SplitFills(text: string, separator: string)
    requires separator != []
    ensures var pieces := Split(text, separator); text == Fill(pieces, Copies(separator, |pieces| - 1))
    decreases |text|
  {
    var found := Find(text, separator);
    if found.Some? {
      var rest := text[found.value + |separator|..];
      CutAtFind(text, separator);
      SplitFills(rest, separator);
      FillPrepends(text[..found.value], separator, Split(rest, separator), rest);
    }
  }

  // After one more splitting round the pieces still make up the text, with the old
  // holes kept and new ones spelled like the separator.
  lemma {:induction false} SplitEachFills(pieces: seq<string>, holes: seq<string>, separator: string)
    returns (holes': seq<string>)
    requires separator != [] && |pieces| == |holes| + 1
    ensures |SplitEach(pieces, separator)| == |holes'| + 1
    ensures Fill(SplitEach(pieces, separator), holes') == Fill(pieces, holes)
    ensures forall h | h in holes' :: h in holes || h == separator
  {
    var first := Split(pieces[0], separator);
    var inner := Copies(separator, |first| - 1);
    SplitFills(pieces[0], separator);
    CopiesOnly(separator, |first| - 1);
    if holes == [] {
      holes' := inner;
      assert SplitEach(pieces[1..], separator) == [];
      assert first + [] == first;
    } else {
      var rest := SplitEachFills(pieces[1..], holes[1..], separator);
      HolesFrom(inner, rest, holes, separator);
      FillConcat(first, inner, holes[0], SplitEach(pieces[1..], separator), rest);
      holes' := inner + [holes[0]] + rest;
    }
  }

  lemma HolesFrom(inner: seq<string>, rest: seq<string>, holes: seq<string>, separator: string)
    requires holes != []
    requires forall h | h in inner :: h == separator
    requires forall h | h in rest :: h in holes[1..] || h == separator
    ensures forall h | h in inner + [holes[0]] + rest :: h in holes || h == separator
  {
  }

  lemma {:induction false} CopiesOnly(x: string, n: nat)
    ensures forall h | h in Copies(x, n) :: h == x
  {
    if n > 0 { CopiesOnly(x, n - 1); }
  }

  // The stored text is itself its segments with a declared spelling in every hole.
  lemma {:induction false} SplitAllFills(pieces: seq<string>, holes: seq<string>, separators: seq<string>)
    returns (holes': seq<string>)
    requires |pieces| == |holes| + 1
    requires NoneEmpty(separators)
    ensures |SplitAll(pieces, separators)| == |holes'| + 1
    ensures Fill(SplitAll(pieces, separators), holes') == Fill(pieces, holes)
    ensures forall h | h in holes' :: h in holes || h in separators
    decreases |separators|
  {
    if separators == [] {
      holes' := holes;
    } else {
      var next := SplitEachFills(pieces, holes, separators[0]);
      holes' := SplitAllFills(SplitEach(pieces, separators[0]), next, separators[1..]);
    }
  }

  // ----- The greedy search

  lemma FillFirstGap(gaps: seq<string>, segments: seq<string>, extra: string)
    requires |gaps| == |segments| + 1
    ensures Fill(gaps[0 := extra + gaps[0]], segments) == extra + Fill(gaps, segments)
  {
    var gaps' := gaps[0 := extra + gaps[0]];
    if segments != [] {
      assert gaps'[1..] == gaps[1..];
      assert gaps'[0] + segments[0] + Fill(gaps[1..], segments[1..])
          == extra + (gaps[0] + segments[0] + Fill(gaps[1..], segments[1..]));
    }
  }

  lemma FitsAfterLeftmost(segment: string, rest: seq<string>, text: string)
    requires Fits([segment] + rest, text)
    ensures var found := Find(text, segment); found.Some? && Fits(rest, text[found.value + |segment|..])
  {
    var all := [segment] + rest;
    var gaps: seq<string> :| |gaps| == |all| + 1 && text == Fill(gaps, all);
    assert all[1..] == rest;
    var tail := Fill(gaps[1..], rest);
    ShiftedOccurrence(gaps[0], segment, tail, text);
    var cut := Find(text, segment).value + |segment|;
    var extra := (gaps[0] + segment)[cut..];
    FillFirstGap(gaps[1..], rest, extra);
    assert text[cut..] == Fill(gaps[1..][0 := extra + gaps[1..][0]], rest);
  }

  lemma ShiftedOccurrence(gap: string, segment: string, tail: string, text: string)
    requires text == gap + segment + tail
    ensures var found := Find(text, segment);
      found.Some? && found.value <= |gap|
      && text[found.value + |segment|..] == (gap + segment)[found.value + |segment|..] + tail
  {
    FindIsLeftmost(text, segment, |gap|);
  }

  lemma FillHead(gap: string, gaps: seq<string>, segment: string, rest: seq<string>)
    requires |gaps| == |rest| + 1
    ensures |[gap] + gaps| == |[segment] + rest| + 1
    ensures Fill([gap] + gaps, [segment] + rest) == gap + segment + Fill(gaps, rest)
  {
    assert ([gap] + gaps)[1..] == gaps && ([segment] + rest)[1..] == rest;
  }

  lemma FitsFromLeftmost(segment: string, rest: seq<string>, text: string)
    requires var found := Find(text, segment); found.Some? && Fits(rest, text[found.value + |segment|..])
    ensures Fits([segment] + rest, text)
  {
    var at := Find(text, segment).value;
    CutAtFind(text, segment);
    var gaps: seq<string> :| |gaps| == |rest| + 1 && text[at + |segment|..] == Fill(gaps, rest);
    FillHead(text[..at], gaps, segment, rest);
  }

  // Committing to the leftmost occurrence never loses a match.
  lemma LeftmostIsEnough(segment: string, rest: seq<string>, text: string)
    ensures var found := Find(text, segment);
      Fits([segment] + rest, text) <==> found.Some? && Fits(rest, text[found.value + |segment|..])
  {
    if Fits([segment] + rest, text) { FitsAfterLeftmost(segment, rest, text); }
    var found := Find(text, segment);
    if found.Some? && Fits(rest, text[found.value + |segment|..]) { FitsFromLeftmost(segment, rest, text); }
  }

  lemma NothingLeftFits(text: string)
    ensures Fits([], text)
  {
    assert text == Fill([text], []);
  }

  // An empty segment fits wherever the rest fits.
  lemma EmptySegment(rest: seq<string>, text: string)
    ensures Fits([""] + rest, text) <==> Fits(rest, text)
  {
    LeftmostIsEnough("", rest, text);
    assert text[0..] == text;
  }

  lemma LoneSegment(segment: string, text: string)
    ensures Fits(["", segment], text) <==> Find(text, segment).Some?
  {
    assert ["", segment] == [""] + [segment] && [segment] == [segment] + [];
    EmptySegment([segment], text);
    LeftmostIsEnough(segment, [], text);
    var found := Find(text, segment);
    if found.Some? { NothingLeftFits(text[found.value + |segment|..]); }
  }

  // The segments from i on fit what follows the cursor.
  ghost predicate FitsFrom(segments: seq<string>, i: nat, text: string, cursor: nat)
    requires i <= |segments| && cursor <= |text|
  {
    Fits(segments[i..], text[cursor..])
  }

  // What one turn of the search decides.
  lemma NextSegment(segments: seq<string>, i: nat, text: string, cursor: nat)
    requires i < |segments| && cursor <= |text|
    ensures var found := Find(text[cursor..], segments[i]);
      FitsFrom(segments, i, text, cursor) <==>
        found.Some? && FitsFrom(segments, i + 1, text, cursor + found.value + |segments[i]|)
    ensures segments[i] == "" ==> FitsFrom(segments, i, text, cursor) == FitsFrom(segments, i + 1, text, cursor)
  {
    HeadApart(segments, i);
    LeftmostIsEnough(segments[i], segments[i + 1..], text[cursor..]);
    var found := Find(text[cursor..], segments[i]);
    if found.Some? { DropTwice(text, cursor, found.value + |segments[i]|); }
  }

  lemma FitsAtTheEnds(segments: seq<string>, text: string, cursor: nat)
    requires cursor <= |text|
    ensures FitsFrom(segments, 0, text, 0) == Fits(segments, text)
    ensures FitsFrom(segments, |segments|, text, cursor)
  {
    assert segments[0..] == segments && text[0..] == text;
    assert segments[|segments|..] == [];
    NothingLeftFits(text[cursor..]);
  }

  method InOrder(segments: seq<string>, executed: string) returns (ok: bool)
    ensures ok <==> Fits(segments, executed)
  {
    var cursor := 0;
    var i := 0;
    FitsAtTheEnds(segments, executed, 0);
    while i < |segments|
      invariant 0 <= i <= |segments| && 0 <= cursor <= |executed|
      invariant Fits(segments, executed) == FitsFrom(segments, i, executed, cursor)
    {
      var segment := segments[i];
      NextSegment(segments, i, executed, cursor);
      i := i + 1;
      if segment == "" { continue; }
      match Find(executed[cursor..], segment) {
        case None => return false;
        case Some(found) => cursor := cursor + found + |segment|;
      }
    }
    FitsAtTheEnds(segments, executed, cursor);
    ok := true;
  }

  // ----- What the search accepts, against what the holes mean

  // Around an instance there may be anything: its values are the inner gaps.
  lemma {:induction false} InstanceInside(before: string, pieces: seq<string>, values: seq<string>, after: string)
    requires |pieces| == |values| + 1
    ensures Fill([before] + values + [after], pieces) == before + Fill(pieces, values) + after
    decreases |pieces|
  {
    var gaps := [before] + values + [after];
    if values == [] {
      assert gaps[1..] == [after];
    } else {
      assert gaps[1..] == [values[0]] + values[1..] + [after];
      InstanceInside(values[0], pieces[1..], values[1..], after);
      assert Fill(gaps, pieces) == before + pieces[0] + Fill(gaps[1..], pieces[1..]);
    }
  }

  // No instance is refused.
  lemma InstancesFit(pieces: seq<string>, text: string)
    requires InstanceOf(pieces, text)
    ensures Fits(pieces, text)
  {
    var values: seq<string> :| |pieces| == |values| + 1 && text == Fill(pieces, values);
    InstanceInside("", pieces, values, "");
  }

  // A hole at either end: the stored text begins and ends with a placeholder.
  predicate OpenEnds(pieces: seq<string>) {
    |pieces| >= 2 && pieces[0] == "" && pieces[|pieces| - 1] == ""
  }

  lemma {:induction false} AbsorbLastGap(gaps: seq<string>, pieces: seq<string>) returns (values: seq<string>)
    requires |gaps| == |pieces| + 1 && |pieces| >= 2 && pieces[|pieces| - 1] == ""
    ensures |pieces| == |values| + 1 && Fill(gaps, pieces) == gaps[0] + Fill(pieces, values)
  {
    if |pieces| == 2 {
      values := [gaps[1] + gaps[2]];
      assert gaps[1..][1..] == [gaps[2]];
      assert pieces[1..][1..] == [];
      assert Fill(gaps[1..], pieces[1..]) == gaps[1] + "" + Fill([gaps[2]], []);
    } else {
      var rest := AbsorbLastGap(gaps[1..], pieces[1..]);
      values := [gaps[1]] + rest;
      assert values[1..] == rest;
    }
  }

  lemma OpenEndsFitsAreInstances(pieces: seq<string>, text: string)
    requires OpenEnds(pieces) && Fits(pieces, text)
    ensures InstanceOf(pieces, text)
  {
    var gaps: seq<string> :| |gaps| == |pieces| + 1 && text == Fill(gaps, pieces);
    var values := AbsorbLastGap(gaps, pieces);
    var values' := values[0 := gaps[0] + values[0]];
    assert values'[1..] == values[1..];
    assert Fill(pieces, values') == gaps[0] + Fill(pieces, values);
  }

  lemma {:induction false} InstanceEnds(pieces: seq<string>, values: seq<string>)
    requires |pieces| == |values| + 1
    ensures var t := Fill(pieces, values); var last := pieces[|pieces| - 1];
      && (pieces[0] != "" ==> t != "" && t[0] == pieces[0][0])
      && (last != "" ==> t != "" && t[|t| - 1] == last[|last| - 1])
  {
    if values != [] {
      InstanceEnds(pieces[1..], values[1..]);
      assert Fill(pieces, values) == (pieces[0] + values[0]) + Fill(pieces[1..], values[1..]);
    }
  }

  // A text the search accepts although it is no instance: one more character in
  // front of a literal beginning, or behind a literal end.
  lemma Unanchored(pieces: seq<string>) returns (text: string)
    requires |pieces| >= 2 && !OpenEnds(pieces)
    ensures Fits(pieces, text) && !InstanceOf(pieces, text)
  {
    var first, last := pieces[0], pieces[|pieces| - 1];
    var values := Copies("", |pieces| - 1);
    var plain := Fill(pieces, values);
    if first != "" {
      text := [if first[0] == 'x' then 'y' else 'x'] + plain;
      InstanceInside(text[..1], pieces, values, "");
    } else {
      var c := if last[|last| - 1] == 'x' then 'y' else 'x';
      text := plain + [c];
      InstanceInside("", pieces, values, [c]);
      assert text == "" + plain + [c];
    }
    WrongEnd(pieces, text);
  }

  lemma WrongEnd(pieces: seq<string>, text: string)
    requires pieces != [] && text != ""
    requires var last := pieces[|pieces| - 1];
      || (pieces[0] != "" && text[0] != pieces[0][0])
      || (last != "" && text[|text| - 1] != last[|last| - 1])
    ensures !InstanceOf(pieces, text)
  {
    forall values: seq<string> | |pieces| == |values| + 1 ensures text != Fill(pieces, values) {
      InstanceEnds(pieces, values);
    }
  }

  // The search accepts exactly the instances if and only if the stored text begins
  // and ends with a placeholder; otherwise it also accepts texts with more around them.
  lemma AcceptsInstancesOnlyIffOpenEnds(pieces: seq<string>)
    requires |pieces| >= 2
    ensures (forall text :: Fits(pieces, text) <==> InstanceOf(pieces, text)) <==> OpenEnds(pieces)
  {
    forall text | InstanceOf(pieces, text) ensures Fits(pieces, text) {
      InstancesFit(pieces, text);
    }
    if OpenEnds(pieces) {
      forall text | Fits(pieces, text) ensures InstanceOf(pieces, text) {
        OpenEndsFitsAreInstances(pieces, text);
      }
    } else {
      var text := Unanchored(pieces);
    }
  }

  // ----- When every binding of a template passes

  // Where a marked character stands when a text is cut in two.
  lemma MarkedCut(before: string, c: char, after: string, left: string, right: string)
    requires before + [c] + after == left + right
    ensures |before| < |left| ==>
        && c in left
        && left == before + [c] + left[|before| + 1..]
        && after == left[|before| + 1..] + right
    ensures |before| >= |left| ==>
        && before == left + before[|left|..]
        && right == before[|left|..] + [c] + after
  {
    var text := before + [c] + after;
    if |before| < |left| {
      assert left[|before|] == c;
      assert left == text[..|left|] && right == text[|left|..];
      assert after == text[|before| + 1..];
    } else {
      assert left == text[..|left|] == before[..|left|] && right == text[|left|..];
    }
  }

  lemma FitsBehind(gap: string, segment: string, rest: seq<string>, tail: string, text: string)
    requires Fits(rest, tail) && text == gap + (segment + tail)
    ensures Fits([segment] + rest, text)
  {
    var gaps: seq<string> :| |gaps| == |rest| + 1 && tail == Fill(gaps, rest);
    assert ([gap] + gaps)[1..] == gaps && ([segment] + rest)[1..] == rest;
    assert text == Fill([gap] + gaps, [segment] + rest);
  }

  lemma FitsHead(segments: seq<string>, text: string) returns (gap: string, tail: string)
    requires segments != [] && Fits(segments, text)
    ensures text == gap + (segments[0] + tail) && Fits(segments[1..], tail)
  {
    var gaps: seq<string> :| |gaps| == |segments| + 1 && text == Fill(gaps, segments);
    gap, tail := gaps[0], Fill(gaps[1..], segments[1..]);
    assert text == gap + segments[0] + tail;
  }

  lemma ReplaceInGap(before: string, c: char, after: string, value: string, gap: string, rest: string)
    returns (gap': string)
    requires before + [c] + after == gap + rest && |before| < |gap|
    ensures before + value + after == gap' + rest
  {
    MarkedCut(before, c, after, gap, rest);
    gap' := before + value + gap[|before| + 1..];
  }

  // Past a gap and a segment without the character.
  lemma SkipHead(before: string, c: char, after: string, value: string, gap: string, segment: string, tail: string)
    returns (before': string)
    requires before + [c] + after == gap + (segment + tail) && |before| >= |gap| && c !in segment
    ensures tail == before' + [c] + after
    ensures before + value + after == gap + (segment + (before' + value + after))
  {
    MarkedCut(before, c, after, gap, segment + tail);
    var b := before[|gap|..];
    MarkedCut(b, c, after, segment, tail);
    before' := b[|segment|..];
  }

  // A character that no segment contains lies in a gap, so any text may stand there.
  lemma {:induction false} ReplaceForeign(segments: seq<string>, before: string, c: char, after: string, value: string)
    requires forall i | 0 <= i < |segments| :: c !in segments[i]
    requires Fits(segments, before + [c] + after)
    ensures Fits(segments, before + value + after)
    decreases |segments|
  {
    var text := before + value + after;
    if segments == [] {
      NothingLeftFits(text);
    } else {
      assert segments == [segments[0]] + segments[1..];
      var gap, tail := FitsHead(segments, before + [c] + after);
      if |before| < |gap| {
        var gap' := ReplaceInGap(before, c, after, value, gap, segments[0] + tail);
        FitsBehind(gap', segments[0], segments[1..], tail, text);
      } else {
        var before' := SkipHead(before, c, after, value, gap, segments[0], tail);
        ReplaceForeign(segments[1..], before', c, after, value);
        FitsBehind(gap, segments[0], segments[1..], before' + value + after, text);
      }
    }
  }

  lemma OneMoreBound(values: seq<string>, c: char, k: nat)
    requires 0 < k <= |values|
    ensures values[..k - 1] + Copies([c], |values| - k + 1) == values[..k - 1] + [[c]] + Copies([c], |values| - k)
    ensures values[..k] + Copies([c], |values| - k) == values[..k - 1] + [values[k - 1]] + Copies([c], |values| - k)
  {
  }

  // Replace the foreign character in the first holes by real values, one hole at a time.
  lemma {:induction false} BindHoles(literals: seq<string>, segments: seq<string>, c: char, values: seq<string>, k: nat)
    requires |literals| == |values| + 1 && k <= |values|
    requires forall i | 0 <= i < |segments| :: c !in segments[i]
    requires Fits(segments, Fill(literals, Copies([c], |values|)))
    ensures Fits(segments, Fill(literals, values[..k] + Copies([c], |values| - k)))
  {
    if k == 0 {
      assert values[..0] + Copies([c], |values|) == Copies([c], |values|);
    } else {
      BindHoles(literals, segments, c, values, k - 1);
      var l1, l2 := literals[..k], literals[k..];
      var v1, v2 := values[..k - 1], Copies([c], |values| - k);
      OneMoreBound(values, c, k);
      assert literals == l1 + l2;
      FillConcat(l1, v1, [c], l2, v2);
      FillConcat(l1, v1, values[k - 1], l2, v2);
      ReplaceForeign(segments, Fill(l1, v1), c, Fill(l2, v2), values[k - 1]);
    }
  }

  lemma BindAll(literals: seq<string>, segments: seq<string>, c: char, values: seq<string>)
    requires |literals| == |values| + 1
    requires forall i | 0 <= i < |segments| :: c !in segments[i]
    requires Fits(segments, Fill(literals, Copies([c], |values|)))
    ensures Fits(segments, Fill(literals, values))
  {
    AllBound(values, c);
    BindHoles(literals, segments, c, values, |values|);
  }

  lemma AllBound(values: seq<string>, c: char)
    ensures values[..|values|] + Copies([c], |values| - |values|) == values
  {
  }

  // One binding decides: every binding of the template passes exactly when the one
  // that puts a character foreign to the segments in every hole passes.
  lemma OneForeignBindingDecides(literals: seq<string>, segments: seq<string>, c: char)
    requires literals != []
    requires forall i | 0 <= i < |segments| :: c !in segments[i]
    ensures (forall values: seq<string> | |literals| == |values| + 1 :: Fits(segments, Fill(literals, values)))
       <==> Fits(segments, Fill(literals, Copies([c], |literals| - 1)))
  {
    if Fits(segments, Fill(literals, Copies([c], |literals| - 1))) {
      forall values: seq<string> | |literals| == |values| + 1 ensures Fits(segments, Fill(literals, values)) {
        BindAll(literals, segments, c, values);
      }
    }
  }
}
