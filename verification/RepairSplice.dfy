/** Compatibility repairs: finding the destination of an inline link, and rewriting the
    chosen destinations of a body in place, from right to left. A text is a list of
    bytes, one character for each byte; positions count them. */
module RepairSplice {
  import opened Options
  import PortableLinks

  datatype Span = Span(start: nat, end: nat)

  // A link as the Markdown parser reports it.
  datatype Target = Target(href: string, inline: bool, source: Span)

  datatype Repair = Repair(kind: string, authored: string, replacement: string)

  datatype Edit = Edit(span: Span, replacement: string)

  datatype Error = NothingSelected | UnsupportedKind | UnsafeReplacement | NoLiveLink

  datatype Outcome = Repaired(body: string) | Refused(error: Error)

  ghost predicate In(span: Span, body: string) {
    span.start <= span.end <= |body|
  }

  predicate Before(a: Span, b: Span) {
    a.end <= b.start
  }

  ghost predicate Apart(a: Span, b: Span) {
    Before(a, b) || Before(b, a)
  }

  // ----- The destination of an inline link

  predicate IsAsciiSpace(c: char) {
    c == ' ' || c == '\t' || c == '\n' || c == '\r' || c == '\U{000C}'
  }

  predicate OpenerAt(text: string, i: nat) {
    i + 1 < |text| && text[i] == ']' && text[i + 1] == '('
  }

  // No other "](" stands behind this one.
  ghost predicate NoLaterOpener(text: string, first: nat) {
    forall i: nat | i > first :: !OpenerAt(text, i)
  }

  // The last "](".
  function LastOpener(text: string): (r: Option<nat>)
    ensures r.Some? ==> OpenerAt(text, r.value)
    ensures forall i: nat | OpenerAt(text, i) :: r.Some? && i <= r.value
  {
    if |text| < 2 then None
    else if OpenerAt(text, |text| - 2) then Some(|text| - 2)
    else
      var front := text[..|text| - 1];
      var r := LastOpener(front);
      assert forall i: nat | OpenerAt(text, i) :: OpenerAt(front, i);
      r
  }

  function SkipSpaces(text: string, i: nat): (j: nat)
    requires i <= |text|
    ensures i <= j <= |text|
    ensures forall k | i <= k < j :: IsAsciiSpace(text[k])
    ensures j < |text| ==> !IsAsciiSpace(text[j])
    decreases |text| - i
  {
    if i < |text| && IsAsciiSpace(text[i]) then SkipSpaces(text, i + 1) else i
  }

  predicate Reads(text: string, i: nat, s: string) {
    i + |s| <= |text| && text[i..i + |s|] == s
  }

  // The destination in a link's own text, relative to its start.
  function Destination(source: string, href: string): Option<Span> {
    var opener := LastOpener(source);
    if opener.None? then None
    else
      var d := SkipSpaces(source, opener.value + 2);
      if d < |source| && source[d] == '<' then
        var end := d + 1 + |href|;
        if Reads(source, d + 1, href) && end < |source| && source[end] == '>' then Some(Span(d + 1, end)) else None
      else
        var end := d + |href|;
        if Reads(source, d, href) && end < |source| && (source[end] == ')' || IsAsciiSpace(source[end]))
        then Some(Span(d, end)) else None
  }

  function DestinationIn(body: string, source: Span, href: string): Option<Span> {
    if source.start <= source.end <= |body| then
      match Destination(body[source.start..source.end], href)
      case None => None
      case Some(d) => Some(Span(source.start + d.start, source.start + d.end))
    else None
  }

  method InlineDestinationSpan(body: string, source: Span, href: string) returns (span: Option<Span>)
    ensures span == DestinationIn(body, source, href)
  {
    if !(source.start <= source.end <= |body|) { return None; }
    var text := body[source.start..source.end];
    var opener := LastOpener(text);
    if opener.None? { return None; }
    var destination := opener.value + 2;
    while destination < |text| && IsAsciiSpace(text[destination])
      invariant opener.value + 2 <= destination <= |text|
      invariant SkipSpaces(text, destination) == SkipSpaces(text, opener.value + 2)
    {
      destination := destination + 1;
    }
    if destination < |text| && text[destination] == '<' {
      destination := destination + 1;
      var end := destination + |href|;
      if Reads(text, destination, href) && end < |text| && text[end] == '>' {
        return Some(Span(source.start + destination, source.start + end));
      }
      return None;
    }
    var end := destination + |href|;
    if !Reads(text, destination, href) || end >= |text| { return None; }
    if text[end] == ')' || IsAsciiSpace(text[end]) {
      return Some(Span(source.start + destination, source.start + end));
    }
    span := None;
  }

  // A returned span lies in the link and holds the authored destination.
  lemma DestinationHoldsHref(body: string, source: Span, href: string)
    ensures var r := DestinationIn(body, source, href);
      r.Some? ==> source.start <= r.value.start <= r.value.end <= source.end <= |body|
                  && body[r.value.start..r.value.end] == href
  {
    var r := DestinationIn(body, source, href);
    if r.Some? {
      var d := Destination(body[source.start..source.end], href).value;
      SliceOfSlice(body, source.start, source.end, d.start, d.end);
    }
  }

  lemma SliceOfSlice(s: string, a: nat, b: nat, i: nat, j: nat)
    requires a <= b <= |s| && i <= j <= b - a
    ensures s[a..b][i..j] == s[a + i..a + j]
  {
    var x, y := s[a..b][i..j], s[a + i..a + j];
    forall k | 0 <= k < |x| ensures x[k] == y[k] {
      assert x[k] == s[a..b][i + k];
    }
  }

  predicate BoundaryAt(source: string, i: nat) {
    i < |source| && (source[i] == ')' || IsAsciiSpace(source[i]))
  }

  // The destination that starts at `start` is found exactly when a boundary follows it and
  // no "](" stands behind the one at `first`.
  ghost predicate FoundExactly(source: string, first: nat, start: nat, href: string) {
    Destination(source, href) == Some(Span(start, start + |href|))
    <==> BoundaryAt(source, start + |href|) && NoLaterOpener(source, first)
  }

  predicate ClosedAt(source: string, i: nat) {
    i < |source| && source[i] == '>'
  }

  // The same for a destination in brackets, the first of which is at `start`.
  ghost predicate FoundInBracketsExactly(source: string, first: nat, start: nat, href: string) {
    Destination(source, href) == Some(Span(start + 1, start + 1 + |href|))
    <==> ClosedAt(source, start + 1 + |href|) && NoLaterOpener(source, first)
  }

  // When "](" and spaces lead up to the destination, the destination itself is found exactly
  // when a boundary follows it and no later "](" stands in the link.
  lemma FindsTheDestinationIff(source: string, first: nat, start: nat, href: string)
    requires OpenerAt(source, first) && first + 2 <= start < |source|
    requires forall k | first + 2 <= k < start :: IsAsciiSpace(source[k])
    requires !IsAsciiSpace(source[start]) && source[start] != '<' && Reads(source, start, href)
    ensures FoundExactly(source, first, start, href)
  {
    var last := LastOpener(source).value;
    if last == first {
      SkipExactly(source, first + 2, start);
    } else {
      LateOpener(source, first, start, last);
      assert OpenerAt(source, last);
    }
  }

  // The same for a destination in angle brackets, which ends at the closing bracket.
  lemma FindsInBracketsIff(source: string, first: nat, start: nat, href: string)
    requires OpenerAt(source, first) && first + 2 <= start < |source|
    requires forall k | first + 2 <= k < start :: IsAsciiSpace(source[k])
    requires source[start] == '<' && Reads(source, start + 1, href)
    ensures FoundInBracketsExactly(source, first, start, href)
  {
    var last := LastOpener(source).value;
    if last == first {
      SkipExactly(source, first + 2, start);
    } else {
      LateOpener(source, first, start, last);
      assert OpenerAt(source, last);
    }
  }

  // Behind this "](" and spaces the text spells the destination, with its boundary or in
  // brackets.
  ghost predicate SpelledBehind(source: string, opener: nat, href: string)
    requires opener + 2 <= |source|
  {
    var d := SkipSpaces(source, opener + 2);
    && d < |source|
    && if source[d] == '<' then Reads(source, d + 1, href) && ClosedAt(source, d + 1 + |href|)
       else Reads(source, d, href) && BoundaryAt(source, d + |href|)
  }

  // The last "](" stands behind the link's own one, in its title, and there the text spells
  // the destination once more.
  ghost predicate DrawnAway(source: string, first: nat, href: string) {
    var last := LastOpener(source);
    last.Some? && last.value > first && SpelledBehind(source, last.value, href)
  }

  // The link's own destination starts at `at`: its "](" stands at `first`, then come spaces
  // and maybe a bracket.
  ghost predicate WrittenAt(source: string, first: nat, at: nat, href: string) {
    && OpenerAt(source, first)
    && var d := SkipSpaces(source, first + 2);
       d < |source| && at == (if source[d] == '<' then d + 1 else d) && Reads(source, at, href)
  }

  lemma FoundBehindTheLast(source: string, href: string)
    ensures var (last, r) := (LastOpener(source), Destination(source, href));
      && (r.Some? <==> last.Some? && SpelledBehind(source, last.value, href))
      && (r.Some? ==> r.value.start >= last.value + 2 && r.value.end == r.value.start + |href|)
  {
  }

  // Something other than the destination is rewritten if and only if the title repeats the
  // end of the link with the destination.
  lemma TitleIsRewrittenIff(source: string, first: nat, at: nat, href: string)
    requires WrittenAt(source, first, at, href)
    ensures (Destination(source, href).Some? && Destination(source, href) != Some(Span(at, at + |href|)))
       <==> DrawnAway(source, first, href)
  {
    var last := LastOpener(source).value;
    FoundBehindTheLast(source, href);
    if last > first {
      var d := SkipSpaces(source, first + 2);
      LateOpener(source, first, d, last);
    }
  }

  // No span at all is found, and so the link is left as it is, if and only if behind the last
  // "]("  the text does not spell the destination.
  lemma LinkIsSkippedIff(source: string, first: nat, at: nat, href: string)
    requires WrittenAt(source, first, at, href)
    ensures Destination(source, href).None? <==> !SpelledBehind(source, LastOpener(source).value, href)
  {
    FoundBehindTheLast(source, href);
  }

  // A link whose title repeats the end of a link: the span lies in the title, at 10,
  // and not at the destination, at 4.
  const TITLED := ['[', 'a', ']', '(', '/', 'x', ' ', '"', ']', '(', '/', 'x', ')', '"', ')']

  lemma TitleIsRewritten()
    ensures Reads(TITLED, 4, "/x") && Destination(TITLED, "/x") == Some(Span(10, 12))
  {
    assert OpenerAt(TITLED, 8);
    assert forall i: nat | OpenerAt(TITLED, i) :: i <= 8;
    assert LastOpener(TITLED) == Some(8);
    assert SkipSpaces(TITLED, 10) == 10;
    assert TITLED[10..12] == "/x" && TITLED[4..6] == "/x";
  }

  // A link whose title holds the end of another link: no span is found.
  const HIDDEN := ['[', 'a', ']', '(', '/', 'x', ' ', '"', ']', '(', 'y', '"', ')']

  lemma TitleHidesTheLink()
    ensures Reads(HIDDEN, 4, "/x") && Destination(HIDDEN, "/x") == None
  {
    assert OpenerAt(HIDDEN, 8);
    assert forall i: nat | OpenerAt(HIDDEN, i) :: i <= 8;
    assert LastOpener(HIDDEN) == Some(8);
    assert SkipSpaces(HIDDEN, 10) == 10;
    assert HIDDEN[10..12][0] == 'y' && HIDDEN[4..6] == "/x";
  }

  // An opener behind the first one stands behind the spaces.
  lemma LateOpener(source: string, first: nat, start: nat, last: nat)
    requires OpenerAt(source, first) && OpenerAt(source, last) && first < last
    requires first + 2 <= start <= |source| && forall k | first + 2 <= k < start :: IsAsciiSpace(source[k])
    ensures last >= start
  {
    assert source[last] == ']' && source[first + 1] == '(';
  }

  lemma {:induction false} SkipExactly(text: string, i: nat, j: nat)
    requires i <= j < |text| && !IsAsciiSpace(text[j])
    requires forall k | i <= k < j :: IsAsciiSpace(text[k])
    ensures SkipSpaces(text, i) == j
    decreases j - i
  {
    if i < j { SkipExactly(text, i + 1, j); }
  }

  // ----- Which repairs are accepted

  predicate StartsWithSlash(s: string) {
    s != [] && s[0] == '/'
  }

  function Validate(repair: Repair): Option<Error> {
    if repair.kind != "replace-markdown-target" then Some(UnsupportedKind)
    else if !StartsWithSlash(repair.authored) || StartsWithSlash(repair.replacement)
            || PortableLinks.IsExternal(repair.replacement) || repair.replacement == [] then Some(UnsafeReplacement)
    else None
  }

  // ----- Simultaneous substitution

  // Edits from left to right, each ending before the next begins, from `pos` on.
  ghost predicate Ascending(edits: seq<Edit>, pos: nat, limit: nat) {
    if edits == [] then pos <= limit
    else
      && pos <= edits[0].span.start <= edits[0].span.end
      && Ascending(edits[1..], edits[0].span.end, limit)
  }

  // The text from `pos` on, with every edit's span replaced and everything else kept.
  function Substitute(body: string, pos: nat, edits: seq<Edit>): string
    requires Ascending(edits, pos, |body|)
    decreases |edits|
  {
    if edits == [] then body[pos..]
    else
      AscendingFits(edits, pos, |body|);
      body[pos..edits[0].span.start] + edits[0].replacement + Substitute(body, edits[0].span.end, edits[1..])
  }

  lemma {:induction false} AscendingFits(edits: seq<Edit>, pos: nat, limit: nat)
    requires Ascending(edits, pos, limit)
    ensures pos <= limit
    ensures edits != [] ==> pos <= edits[0].span.start <= edits[0].span.end <= limit
    decreases |edits|
  {
    if edits != [] { AscendingFits(edits[1..], edits[0].span.end, limit); }
  }

  // ----- The new text place by place

  // Where the k-th gap begins: behind the edit before it, in the text and in the new text. There the
  // replacements stand at `at`.
  ghost function OldEnd(edits: seq<Edit>, pos: nat, k: nat): nat
    requires k <= |edits|
  {
    if k == 0 then pos else edits[k - 1].span.end
  }

  ghost function NewEnd(edits: seq<Edit>, at: seq<nat>, from: nat, k: nat): nat
    requires k <= |edits| == |at|
  {
    if k == 0 then from else at[k - 1] + |edits[k - 1].replacement|
  }

  ghost predicate StandsAt(text: string, at: nat, part: string) {
    at + |part| <= |text| && text[at..at + |part|] == part
  }

  ghost predicate SamePart(a: string, i: nat, j: nat, b: string, k: nat, l: nat) {
    i <= j <= |a| && k <= l <= |b| && a[i..j] == b[k..l]
  }

  ghost predicate KeepsGap(body: string, pos: nat, edits: seq<Edit>, changed: string, from: nat, at: seq<nat>, k: nat)
    requires k < |edits| == |at|
  {
    SamePart(body, OldEnd(edits, pos, k), edits[k].span.start, changed, NewEnd(edits, at, from, k), at[k])
  }

  // Every replacement stands at its place, and between them stands what stood between the spans.
  ghost predicate Rewritten(body: string, pos: nat, edits: seq<Edit>, changed: string, from: nat, at: seq<nat>) {
    && |at| == |edits|
    && (forall k | 0 <= k < |edits| :: StandsAt(changed, at[k], edits[k].replacement))
    && (forall k | 0 <= k < |edits| :: KeepsGap(body, pos, edits, changed, from, at, k))
    && SamePart(body, OldEnd(edits, pos, |edits|), |body|, changed, NewEnd(edits, at, from, |edits|), |changed|)
  }

  ghost predicate IsRewritten(body: string, edits: seq<Edit>, changed: string) {
    exists at :: Rewritten(body, 0, edits, changed, 0, at)
  }

  lemma RewrittenBehind(body: string, pos: nat, e: Edit, rest: seq<Edit>, changed: string, from: nat, first: nat,
                        next: nat, at: seq<nat>)
    requires next == first + |e.replacement| && Rewritten(body, e.span.end, rest, changed, next, at)
    requires StandsAt(changed, first, e.replacement) && SamePart(body, pos, e.span.start, changed, from, first)
    ensures Rewritten(body, pos, [e] + rest, changed, from, [first] + at)
  {
    var (edits, places) := ([e] + rest, [first] + at);
    forall k: nat | k < |edits| ensures KeepsGap(body, pos, edits, changed, from, places, k) {
      if k > 0 { assert KeepsGap(body, e.span.end, rest, changed, next, at, k - 1); }
    }
    forall k: nat | k < |edits| ensures StandsAt(changed, places[k], edits[k].replacement) {
      if k > 0 { assert StandsAt(changed, at[k - 1], rest[k - 1].replacement); }
    }
  }

  lemma FirstStands(body: string, pos: nat, e: Edit, before: string, tail: string, changed: string)
    requires pos <= e.span.start <= |body|
    requires changed == before + (body[pos..e.span.start] + e.replacement + tail)
    ensures var first := |before| + (e.span.start - pos);
      StandsAt(changed, first, e.replacement) && SamePart(body, pos, e.span.start, changed, |before|, first)
    ensures changed == before + body[pos..e.span.start] + e.replacement + tail
  {
    GapStays(before, body[pos..e.span.start], e.replacement, tail, changed);
    var front := before + body[pos..e.span.start];
    assert changed == front + (e.replacement + tail);
    assert changed[|front|..|front| + |e.replacement|] == e.replacement;
  }

  lemma LastGapStays(body: string, pos: nat, before: string, changed: string)
    requires pos <= |body| && changed == before + body[pos..]
    ensures Rewritten(body, pos, [], changed, |before|, [])
  {
    assert body[pos..|body|] == body[pos..] == changed[|before|..|changed|];
  }

  lemma {:induction false} SubstituteRewrites(body: string, pos: nat, edits: seq<Edit>, before: string, changed: string)
    returns (at: seq<nat>)
    requires Ascending(edits, pos, |body|) && changed == before + Substitute(body, pos, edits)
    ensures Rewritten(body, pos, edits, changed, |before|, at)
    decreases |edits|
  {
    AscendingFits(edits, pos, |body|);
    if edits == [] {
      LastGapStays(body, pos, before, changed);
      at := [];
    } else {
      var (e, rest) := (edits[0], edits[1..]);
      var first := |before| + (e.span.start - pos);
      var done := before + body[pos..e.span.start] + e.replacement;
      FirstStands(body, pos, e, before, Substitute(body, e.span.end, rest), changed);
      var more := SubstituteRewrites(body, e.span.end, rest, done, changed);
      RewrittenBehind(body, pos, e, rest, changed, |before|, first, |done|, more);
      assert edits == [e] + rest;
      at := [first] + more;
    }
  }

  // The edits that undo the substitution, in the coordinates of the new text.
  function Undo(body: string, pos: nat, at: nat, edits: seq<Edit>): seq<Edit>
    requires Ascending(edits, pos, |body|)
    decreases |edits|
  {
    if edits == [] then []
    else
      AscendingFits(edits, pos, |body|);
      var e := edits[0];
      var start := at + e.span.start - pos;
      var end := start + |e.replacement|;
      [Edit(Span(start, end), body[e.span.start..e.span.end])] + Undo(body, e.span.end, end, edits[1..])
  }

  lemma {:induction false} UndoFits(body: string, pos: nat, edits: seq<Edit>, at: nat)
    requires Ascending(edits, pos, |body|)
    ensures Ascending(Undo(body, pos, at, edits), at, at + |Substitute(body, pos, edits)|)
    decreases |edits|
  {
    AscendingFits(edits, pos, |body|);
    if edits != [] {
      var e, rest := edits[0], edits[1..];
      var end := at + e.span.start - pos + |e.replacement|;
      UndoFits(body, e.span.end, rest, end);
      assert Undo(body, pos, at, edits)[1..] == Undo(body, e.span.end, end, rest);
    }
  }

  // Substituting back restores the text: nothing outside the spans was lost or moved.
  lemma {:induction false} UndoRestores(body: string, pos: nat, edits: seq<Edit>, before: string, changed: string)
    requires Ascending(edits, pos, |body|)
    requires changed == before + Substitute(body, pos, edits)
    ensures pos <= |body|
    ensures Ascending(Undo(body, pos, |before|, edits), |before|, |changed|)
    ensures Substitute(changed, |before|, Undo(body, pos, |before|, edits)) == body[pos..]
    decreases |edits|
  {
    UndoFits(body, pos, edits, |before|);
    AscendingFits(edits, pos, |body|);
    if edits != [] {
      var e, rest := edits[0], edits[1..];
      var gap := body[pos..e.span.start];
      var next := before + gap + e.replacement;
      GapStays(before, gap, e.replacement, Substitute(body, e.span.end, rest), changed);
      UndoRestores(body, e.span.end, rest, next, changed);
      var undone := Undo(body, e.span.end, |next|, rest);
      var first := Edit(Span(|before| + |gap|, |next|), body[e.span.start..e.span.end]);
      assert Undo(body, pos, |before|, edits) == [first] + undone;
      UndoFirst(body, pos, e.span, |before|, first, undone, changed);
    }
  }

  // With the later edits undone, undoing the first one restores the text from before it.
  lemma UndoFirst(body: string, pos: nat, span: Span, at: nat, first: Edit, undone: seq<Edit>, changed: string)
    requires pos <= span.start <= span.end <= |body|
    requires at <= first.span.start <= first.span.end && Ascending(undone, first.span.end, |changed|)
    requires Substitute(changed, first.span.end, undone) == body[span.end..]
    requires first.span.start <= |changed| && changed[at..first.span.start] == body[pos..span.start]
    requires first.replacement == body[span.start..span.end]
    ensures Ascending([first] + undone, at, |changed|)
    ensures Substitute(changed, at, [first] + undone) == body[pos..]
  {
    SliceInThree(body, pos, span.start, span.end);
    SubstituteCons(changed, at, first, undone);
  }

  lemma SubstituteCons(body: string, pos: nat, e: Edit, rest: seq<Edit>)
    requires pos <= e.span.start <= e.span.end && Ascending(rest, e.span.end, |body|)
    ensures e.span.end <= |body| && Ascending([e] + rest, pos, |body|)
    ensures Substitute(body, pos, [e] + rest)
         == body[pos..e.span.start] + e.replacement + Substitute(body, e.span.end, rest)
  {
    AscendingFits(rest, e.span.end, |body|);
    assert ([e] + rest)[1..] == rest;
  }

  lemma SliceInThree(body: string, a: nat, b: nat, c: nat)
    requires a <= b <= c <= |body|
    ensures body[a..] == body[a..b] + body[b..c] + body[c..]
  {
  }

  lemma GapStays(before: string, gap: string, replacement: string, tail: string, changed: string)
    requires changed == before + (gap + replacement + tail)
    ensures changed == before + gap + replacement + tail
    ensures changed[|before|..|before| + |gap|] == gap
  {
  }

  // ----- Right-to-left splicing

  function Splice(body: string, edit: Edit): string
    requires In(edit.span, body)
  {
    body[..edit.span.start] + edit.replacement + body[edit.span.end..]
  }

  // Splicing the last edit first leaves the earlier spans where they were.
  lemma {:induction false} SpliceLast(body: string, pos: nat, edits: seq<Edit>, last: Edit)
    requires Ascending(edits + [last], pos, |body|)
    ensures In(last.span, body) && Ascending(edits, pos, |Splice(body, last)|)
    ensures Substitute(Splice(body, last), pos, edits) == Substitute(body, pos, edits + [last])
    decreases |edits|
  {
    var all := edits + [last];
    AscendingFits(all, pos, |body|);
    if edits == [] {
      assert all[1..] == [];
    } else {
      var e := edits[0];
      assert all[1..] == edits[1..] + [last];
      SpliceLast(body, e.span.end, edits[1..], last);
      AscendingFits(edits[1..] + [last], e.span.end, |body|);
      LastStartsLate(edits[1..], last, e.span.end, |body|);
      assert Splice(body, last)[pos..e.span.start] == body[pos..e.span.start];
    }
  }

  lemma {:induction false} LastStartsLate(edits: seq<Edit>, last: Edit, pos: nat, limit: nat)
    requires Ascending(edits + [last], pos, limit)
    ensures pos <= last.span.start
    decreases |edits|
  {
    if edits != [] {
      assert (edits + [last])[1..] == edits[1..] + [last];
      LastStartsLate(edits[1..], last, edits[0].span.end, limit);
    }
  }

  function Reverse<T>(s: seq<T>): (r: seq<T>)
    ensures |r| == |s|
  {
    if s == [] then [] else Reverse(s[1..]) + [s[0]]
  }

  // The loop of the repair: replace the edits' ranges one after the other, rightmost first.
  method SpliceAll(body: string, edits: seq<Edit>) returns (normalized: string)
    requires Ascending(Reverse(edits), 0, |body|)
    ensures normalized == Substitute(body, 0, Reverse(edits))
  {
    normalized := body;
    var i := 0;
    assert edits[0..] == edits;
    while i < |edits|
      invariant 0 <= i <= |edits|
      invariant Ascending(Reverse(edits[i..]), 0, |normalized|)
      invariant Substitute(normalized, 0, Reverse(edits[i..])) == Substitute(body, 0, Reverse(edits))
    {
      assert edits[i..][1..] == edits[i + 1..];
      assert Reverse(edits[i..]) == Reverse(edits[i + 1..]) + [edits[i]];
      SpliceLast(normalized, 0, Reverse(edits[i + 1..]), edits[i]);
      normalized := Splice(normalized, edits[i]);
      i := i + 1;
    }
    assert edits[i..] == [];
  }

  // ----- Sorting by start, latest first, and dropping repeated spans

  // Stable insertion by descending start.
  function InsertDescending(e: Edit, sorted: seq<Edit>): seq<Edit> {
    if sorted == [] then [e]
    else if e.span.start >= sorted[0].span.start then [e] + sorted
    else [sorted[0]] + InsertDescending(e, sorted[1..])
  }

  // Inserting from the last edit to the first keeps equal starts in their order.
  function SortDescending(edits: seq<Edit>): seq<Edit> {
    if edits == [] then [] else InsertDescending(edits[0], SortDescending(edits[1..]))
  }

  // The first of every run of equal spans.
  function DropRepeats(edits: seq<Edit>): seq<Edit> {
    if |edits| <= 1 then edits
    else
      var rest := DropRepeats(edits[1..]);
      if edits[0].span == edits[1].span then [edits[0]] + rest[1..] else [edits[0]] + rest
  }

  // The first edit in the list with this span.
  function FirstWith(edits: seq<Edit>, span: Span): Option<Edit> {
    if edits == [] then None
    else if edits[0].span == span then Some(edits[0])
    else FirstWith(edits[1..], span)
  }

  lemma {:induction false} InsertKeepsFirst(e: Edit, sorted: seq<Edit>, span: Span)
    ensures FirstWith(InsertDescending(e, sorted), span) == if e.span == span then Some(e) else FirstWith(sorted, span)
  {
    if sorted != [] && e.span.start < sorted[0].span.start {
      InsertKeepsFirst(e, sorted[1..], span);
    }
  }

  // Sorting is stable: the first edit with a span stays the first.
  lemma {:induction false} SortKeepsFirst(edits: seq<Edit>, span: Span)
    ensures FirstWith(SortDescending(edits), span) == FirstWith(edits, span)
  {
    if edits != [] {
      SortKeepsFirst(edits[1..], span);
      InsertKeepsFirst(edits[0], SortDescending(edits[1..]), span);
    }
  }

  lemma {:induction false} DropKeepsFirst(edits: seq<Edit>, span: Span)
    ensures FirstWith(DropRepeats(edits), span) == FirstWith(edits, span)
    ensures edits != [] ==> DropRepeats(edits) != [] && DropRepeats(edits)[0] == edits[0]
  {
    if |edits| > 1 {
      DropKeepsFirst(edits[1..], span);
    }
  }

  ghost predicate Descending(edits: seq<Edit>) {
    forall i, j | 0 <= i < j < |edits| :: edits[i].span.start >= edits[j].span.start
  }

  lemma {:induction false} InsertDescends(e: Edit, sorted: seq<Edit>)
    requires Descending(sorted)
    ensures Descending(InsertDescending(e, sorted))
    ensures forall x :: x in InsertDescending(e, sorted) <==> x == e || x in sorted
  {
    if sorted != [] && e.span.start < sorted[0].span.start {
      InsertDescends(e, sorted[1..]);
      assert sorted == [sorted[0]] + sorted[1..];
      var rest := InsertDescending(e, sorted[1..]);
      forall j | 0 <= j < |rest| ensures sorted[0].span.start >= rest[j].span.start {
        assert rest[j] in rest;
      }
    }
  }

  lemma {:induction false} SortDescends(edits: seq<Edit>)
    ensures Descending(SortDescending(edits))
    ensures forall x :: x in SortDescending(edits) <==> x in edits
  {
    if edits != [] {
      SortDescends(edits[1..]);
      InsertDescends(edits[0], SortDescending(edits[1..]));
      assert edits == [edits[0]] + edits[1..];
    }
  }

  // Two spans of a body's links: the same one, or one after the other.
  ghost predicate Compatible(edits: seq<Edit>) {
    forall a, b | a in edits && b in edits :: a.span == b.span || Apart(a.span, b.span)
  }

  ghost predicate Proper(edits: seq<Edit>, limit: nat) {
    forall e | e in edits :: e.span.start < e.span.end <= limit
  }

  // From right to left, each edit ends before the one listed before it begins.
  ghost predicate RightToLeft(edits: seq<Edit>, limit: nat) {
    edits == []
    || (edits[0].span.start < edits[0].span.end <= limit && RightToLeft(edits[1..], edits[0].span.start))
  }

  lemma TailEndsBefore(edits: seq<Edit>, limit: nat)
    requires |edits| > 1 && edits[0].span != edits[1].span
    requires Descending(edits) && Compatible(edits) && Proper(edits, limit)
    ensures Proper(edits[1..], edits[0].span.start)
  {
    var a, b, tail := edits[0], edits[1], edits[1..];
    assert a in edits && b in edits;
    forall k | 0 <= k < |tail| ensures tail[k].span.start < tail[k].span.end <= a.span.start {
      assert tail[k] == edits[k + 1];
      assert edits[k + 1] in edits;
      assert edits[1].span.start >= edits[k + 1].span.start || k == 0;
    }
  }

  lemma {:induction false} DroppedRunsRightToLeft(edits: seq<Edit>, limit: nat)
    requires Descending(edits) && Compatible(edits) && Proper(edits, limit)
    ensures RightToLeft(DropRepeats(edits), limit)
  {
    if |edits| == 1 {
      assert edits[0] in edits;
      assert edits[1..] == [];
    } else if |edits| > 1 {
      var tail := edits[1..];
      assert edits[0] in edits && edits[1] in edits && forall x | x in tail :: x in edits;
      DropKeepsFirst(tail, edits[1].span);
      if edits[0].span == edits[1].span {
        DroppedRunsRightToLeft(tail, limit);
        SwapFirst(DropRepeats(tail), edits[0], limit);
      } else {
        TailEndsBefore(edits, limit);
        DroppedRunsRightToLeft(tail, edits[0].span.start);
        assert ([edits[0]] + DropRepeats(tail))[1..] == DropRepeats(tail);
      }
    }
  }

  // Another edit of the same span may stand in front.
  lemma SwapFirst(edits: seq<Edit>, e: Edit, limit: nat)
    requires edits != [] && e.span == edits[0].span && RightToLeft(edits, limit)
    ensures RightToLeft([e] + edits[1..], limit)
  {
    assert ([e] + edits[1..])[1..] == edits[1..];
  }

  lemma {:induction false} AscendingSnoc(edits: seq<Edit>, last: Edit, pos: nat, limit: nat)
    requires Ascending(edits, pos, last.span.start) && last.span.start <= last.span.end <= limit
    ensures Ascending(edits + [last], pos, limit)
    decreases |edits|
  {
    if edits == [] {
      assert (edits + [last])[1..] == [];
    } else {
      assert (edits + [last])[1..] == edits[1..] + [last];
      AscendingSnoc(edits[1..], last, edits[0].span.end, limit);
    }
  }

  lemma {:induction false} ReversedAscends(edits: seq<Edit>, limit: nat)
    requires RightToLeft(edits, limit)
    ensures Ascending(Reverse(edits), 0, limit)
  {
    if edits != [] {
      ReversedAscends(edits[1..], edits[0].span.start);
      AscendingSnoc(Reverse(edits[1..]), edits[0], 0, limit);
    }
  }

  lemma {:induction false} ReverseHolds<T>(s: seq<T>, x: T)
    ensures x in Reverse(s) <==> x in s
  {
    if s != [] {
      assert s == [s[0]] + s[1..];
      ReverseHolds(s[1..], x);
    }
  }

  // ----- The repair

  // The edit of one link, if the repair is for it and its destination is found.
  function EditOf(body: string, t: Target, repair: Repair): seq<Edit> {
    var span := DestinationIn(body, t.source, t.href);
    if t.inline && t.href == repair.authored && span.Some? then [Edit(span.value, repair.replacement)] else []
  }

  function EditsFor(body: string, targets: seq<Target>, repair: Repair): seq<Edit> {
    if targets == [] then []
    else EditsFor(body, targets[..|targets| - 1], repair) + EditOf(body, targets[|targets| - 1], repair)
  }

  function ProblemOf(body: string, targets: seq<Target>, repair: Repair): Option<Error> {
    if Validate(repair).Some? then Validate(repair)
    else if EditsFor(body, targets, repair) == [] then Some(NoLiveLink)
    else None
  }

  // Why the repairs are refused, if they are: the first one that is not valid or names no live link.
  function Problem(body: string, targets: seq<Target>, repairs: seq<Repair>): Option<Error> {
    if repairs == [] then None
    else
      var earlier := Problem(body, targets, repairs[..|repairs| - 1]);
      if earlier.Some? then earlier else ProblemOf(body, targets, repairs[|repairs| - 1])
  }

  // Every edit, in the order the repairs declare them.
  function Declared(body: string, targets: seq<Target>, repairs: seq<Repair>): seq<Edit> {
    if repairs == [] then []
    else Declared(body, targets, repairs[..|repairs| - 1]) + EditsFor(body, targets, repairs[|repairs| - 1])
  }

  // Of the declared edits, the first for every span, and no others.
  ghost predicate FirstForEverySpan(declared: seq<Edit>, chosen: seq<Edit>) {
    && (forall e | e in chosen :: FirstWith(declared, e.span) == Some(e))
    && (forall e | e in declared :: exists c :: c in chosen && c.span == e.span)
  }

  // ----- What a repair asks for

  // The link is an inline one with the authored destination, and that is found at the span.
  ghost predicate AimsAt(body: string, t: Target, repair: Repair, span: Span) {
    t.inline && t.href == repair.authored && DestinationIn(body, t.source, t.href) == Some(span)
  }

  ghost predicate Names(body: string, targets: seq<Target>, repair: Repair, span: Span) {
    exists i :: 0 <= i < |targets| && AimsAt(body, targets[i], repair, span)
  }

  ghost predicate Live(body: string, targets: seq<Target>, repair: Repair) {
    exists span :: Names(body, targets, repair, span)
  }

  // An absolute destination, to be replaced by a relative one.
  ghost predicate Safe(repair: Repair) {
    && repair.authored != "" && repair.authored[0] == '/'
    && repair.replacement != "" && repair.replacement[0] != '/'
    && !PortableLinks.HasScheme(repair.replacement)
  }

  ghost predicate Supported(repair: Repair) {
    repair.kind == "replace-markdown-target"
  }

  ghost predicate Acceptable(body: string, targets: seq<Target>, repair: Repair) {
    Supported(repair) && Safe(repair) && Live(body, targets, repair)
  }

  // The reason for refusing this repair is the first that applies.
  ghost predicate RefusedFor(body: string, targets: seq<Target>, repair: Repair, error: Error) {
    match error
    case NothingSelected => false
    case UnsupportedKind => !Supported(repair)
    case UnsafeReplacement => Supported(repair) && !Safe(repair)
    case NoLiveLink => Supported(repair) && Safe(repair) && !Live(body, targets, repair)
  }

  // The first repair that is not acceptable gives the error.
  ghost predicate RefusedForFirst(body: string, targets: seq<Target>, repairs: seq<Repair>, error: Error) {
    exists k :: 0 <= k < |repairs| && RefusedFor(body, targets, repairs[k], error)
             && AllAcceptable(body, targets, repairs[..k])
  }

  ghost predicate AllAcceptable(body: string, targets: seq<Target>, repairs: seq<Repair>) {
    forall k | 0 <= k < |repairs| :: Acceptable(body, targets, repairs[k])
  }

  // The edit puts the replacement of the first repair that names its span there.
  ghost predicate FromFirstRepair(body: string, targets: seq<Target>, repairs: seq<Repair>, e: Edit) {
    exists k :: 0 <= k < |repairs| && Names(body, targets, repairs[k], e.span)
             && e.span.start <= e.span.end <= |body| && body[e.span.start..e.span.end] == repairs[k].authored
             && e.replacement == repairs[k].replacement
             && forall j | 0 <= j < k :: !Names(body, targets, repairs[j], e.span)
  }

  ghost predicate EditedAt(chosen: seq<Edit>, span: Span) {
    exists c :: c in chosen && c.span == span
  }

  // The edits are those the repairs ask for: one for every span that a repair names.
  ghost predicate AsAsked(body: string, targets: seq<Target>, repairs: seq<Repair>, chosen: seq<Edit>) {
    && (forall e | e in chosen :: FromFirstRepair(body, targets, repairs, e))
    && (forall k, span | 0 <= k < |repairs| && Names(body, targets, repairs[k], span) :: EditedAt(chosen, span))
  }

  lemma NamesOneMore(body: string, targets: seq<Target>, t: Target, repair: Repair, span: Span)
    ensures Names(body, targets + [t], repair, span)
      <==> Names(body, targets, repair, span) || AimsAt(body, t, repair, span)
  {
    var all := targets + [t];
    assert all[|targets|] == t;
    if Names(body, targets, repair, span) {
      var i :| 0 <= i < |targets| && AimsAt(body, targets[i], repair, span);
      assert all[i] == targets[i];
    }
  }

  lemma EditOfHolds(body: string, t: Target, repair: Repair, e: Edit)
    ensures e in EditOf(body, t, repair) <==> AimsAt(body, t, repair, e.span) && e.replacement == repair.replacement
  {
  }

  lemma {:induction false} EditsForHolds(body: string, targets: seq<Target>, repair: Repair, e: Edit)
    ensures e in EditsFor(body, targets, repair)
      <==> Names(body, targets, repair, e.span) && e.replacement == repair.replacement
  {
    if targets != [] {
      var (front, last) := (targets[..|targets| - 1], targets[|targets| - 1]);
      assert targets == front + [last];
      EditsForHolds(body, front, repair, e);
      NamesOneMore(body, front, last, repair, e.span);
      EditOfHolds(body, last, repair, e);
    }
  }

  lemma {:induction false} FirstOfSum(a: seq<Edit>, b: seq<Edit>, span: Span)
    ensures FirstWith(a + b, span) == if FirstWith(a, span).Some? then FirstWith(a, span) else FirstWith(b, span)
  {
    if a == [] {
      assert a + b == b;
    } else {
      assert (a + b)[1..] == a[1..] + b;
      FirstOfSum(a[1..], b, span);
    }
  }

  lemma FirstEditFor(body: string, targets: seq<Target>, repair: Repair, span: Span)
    ensures FirstWith(EditsFor(body, targets, repair), span)
         == if Names(body, targets, repair, span) then Some(Edit(span, repair.replacement)) else None
  {
    var edits := EditsFor(body, targets, repair);
    FirstIsIn(edits, span);
    EditsForHolds(body, targets, repair, Edit(span, repair.replacement));
    var first := FirstWith(edits, span);
    if first.Some? { EditsForHolds(body, targets, repair, first.value); }
    if Names(body, targets, repair, span) { FirstIsThere(edits, Edit(span, repair.replacement)); }
  }

  // The place of the first repair that names the span, or the number of repairs.
  ghost predicate FirstNaming(body: string, targets: seq<Target>, repairs: seq<Repair>, span: Span, k: nat) {
    && k <= |repairs| && (k < |repairs| ==> Names(body, targets, repairs[k], span))
    && forall j | 0 <= j < k :: !Names(body, targets, repairs[j], span)
  }

  lemma FirstNamingOneMore(body: string, targets: seq<Target>, repairs: seq<Repair>, r: Repair, span: Span, k: nat)
    requires FirstNaming(body, targets, repairs, span, k)
    ensures FirstNaming(body, targets, repairs + [r], span,
                        if k == |repairs| && !Names(body, targets, r, span) then k + 1 else k)
  {
    var all := repairs + [r];
    assert all[|repairs|] == r && forall j | 0 <= j < |repairs| :: all[j] == repairs[j];
  }

  // The first declared edit of a span is that of the first repair that names it.
  lemma {:induction false} FirstDeclared(body: string, targets: seq<Target>, repairs: seq<Repair>, span: Span)
    returns (k: nat)
    ensures FirstNaming(body, targets, repairs, span, k)
    ensures FirstWith(Declared(body, targets, repairs), span)
         == if k < |repairs| then Some(Edit(span, repairs[k].replacement)) else None
  {
    k := 0;
    if repairs != [] {
      var (front, last) := (repairs[..|repairs| - 1], repairs[|repairs| - 1]);
      assert repairs == front + [last];
      k := FirstDeclared(body, targets, front, span);
      FirstNamingOneMore(body, targets, front, last, span, k);
      FirstEditFor(body, targets, last, span);
      FirstOfSum(Declared(body, targets, front), EditsFor(body, targets, last), span);
      if k == |front| && !Names(body, targets, last, span) { k := k + 1; }
    }
  }

  lemma NamedSpanHolds(body: string, targets: seq<Target>, repair: Repair, span: Span)
    requires Names(body, targets, repair, span)
    ensures span.start <= span.end <= |body| && body[span.start..span.end] == repair.authored
  {
    var i :| 0 <= i < |targets| && AimsAt(body, targets[i], repair, span);
    DestinationHoldsHref(body, targets[i].source, targets[i].href);
  }

  lemma ChosenAsAsked(body: string, targets: seq<Target>, repairs: seq<Repair>, chosen: seq<Edit>)
    requires FirstForEverySpan(Declared(body, targets, repairs), chosen)
    ensures AsAsked(body, targets, repairs, chosen)
  {
    var declared := Declared(body, targets, repairs);
    forall e | e in chosen ensures FromFirstRepair(body, targets, repairs, e) {
      var k := FirstDeclared(body, targets, repairs, e.span);
      NamedSpanHolds(body, targets, repairs[k], e.span);
    }
    forall k, span | 0 <= k < |repairs| && Names(body, targets, repairs[k], span) ensures EditedAt(chosen, span) {
      var first := FirstDeclared(body, targets, repairs, span);
      FirstIsIn(declared, span);
      var e := FirstWith(declared, span).value;
      assert e in declared && e.span == span;
    }
  }

  lemma ValidateReasons(repair: Repair)
    ensures Validate(repair).None? <==> Supported(repair) && Safe(repair)
    ensures Validate(repair) == Some(UnsupportedKind) <==> !Supported(repair)
    ensures Validate(repair) == Some(UnsafeReplacement) <==> Supported(repair) && !Safe(repair)
  {
    PortableLinks.IsExternalIff(repair.replacement);
  }

  lemma LiveIffEdits(body: string, targets: seq<Target>, repair: Repair)
    ensures Live(body, targets, repair) <==> EditsFor(body, targets, repair) != []
  {
    var edits := EditsFor(body, targets, repair);
    if edits != [] { EditsForHolds(body, targets, repair, edits[0]); }
    if Live(body, targets, repair) {
      var span :| Names(body, targets, repair, span);
      EditsForHolds(body, targets, repair, Edit(span, repair.replacement));
    }
  }

  lemma ProblemOfReasons(body: string, targets: seq<Target>, repair: Repair)
    ensures var p := ProblemOf(body, targets, repair);
      if p.Some? then RefusedFor(body, targets, repair, p.value) else Acceptable(body, targets, repair)
  {
    ValidateReasons(repair);
    LiveIffEdits(body, targets, repair);
  }

  lemma FirstStays(body: string, targets: seq<Target>, repairs: seq<Repair>, r: Repair, error: Error)
    requires RefusedForFirst(body, targets, repairs, error)
          || (AllAcceptable(body, targets, repairs) && RefusedFor(body, targets, r, error))
    ensures RefusedForFirst(body, targets, repairs + [r], error)
  {
    var all := repairs + [r];
    if RefusedForFirst(body, targets, repairs, error) {
      var k :| 0 <= k < |repairs| && RefusedFor(body, targets, repairs[k], error)
            && AllAcceptable(body, targets, repairs[..k]);
      assert all[k] == repairs[k] && all[..k] == repairs[..k];
    } else {
      assert all[|repairs|] == r && all[..|repairs|] == repairs;
    }
  }

  lemma AllAcceptableOneMore(body: string, targets: seq<Target>, repairs: seq<Repair>, r: Repair)
    requires AllAcceptable(body, targets, repairs) && Acceptable(body, targets, r)
    ensures AllAcceptable(body, targets, repairs + [r])
  {
  }

  lemma {:induction false} ProblemReasons(body: string, targets: seq<Target>, repairs: seq<Repair>)
    ensures var p := Problem(body, targets, repairs);
      if p.Some? then RefusedForFirst(body, targets, repairs, p.value) else AllAcceptable(body, targets, repairs)
  {
    if repairs != [] {
      var (front, last) := (repairs[..|repairs| - 1], repairs[|repairs| - 1]);
      assert repairs == front + [last];
      ProblemReasons(body, targets, front);
      ProblemOfReasons(body, targets, last);
      var p := Problem(body, targets, repairs);
      if p.Some? {
        FirstStays(body, targets, front, last, p.value);
      } else {
        AllAcceptableOneMore(body, targets, front, last);
      }
    }
  }

  // Inline links do not overlap; other targets, such as an address within a link's text, may
  // lie anywhere.
  ghost predicate LinksApart(targets: seq<Target>) {
    forall i, j | 0 <= i < j < |targets| && targets[i].inline && targets[j].inline ::
      targets[i] == targets[j] || Apart(targets[i].source, targets[j].source)
  }

  ghost predicate FromLink(body: string, targets: seq<Target>, e: Edit) {
    exists i :: 0 <= i < |targets| && targets[i].inline && StartsWithSlash(targets[i].href)
             && DestinationIn(body, targets[i].source, targets[i].href) == Some(e.span)
  }

  lemma {:induction false} EditsComeFromLinks(body: string, targets: seq<Target>, repair: Repair, e: Edit)
    requires StartsWithSlash(repair.authored) && e in EditsFor(body, targets, repair)
    ensures FromLink(body, targets, e) && e.replacement == repair.replacement
  {
    var front := targets[..|targets| - 1];
    if e in EditsFor(body, front, repair) {
      EditsComeFromLinks(body, front, repair, e);
      var i :| 0 <= i < |front| && front[i].inline && StartsWithSlash(front[i].href)
            && DestinationIn(body, front[i].source, front[i].href) == Some(e.span);
      assert front[i] == targets[i];
    }
  }

  lemma {:induction false} DeclaredComeFromLinks(body: string, targets: seq<Target>, repairs: seq<Repair>, e: Edit)
    requires Problem(body, targets, repairs).None? && e in Declared(body, targets, repairs)
    ensures FromLink(body, targets, e)
  {
    var front, last := repairs[..|repairs| - 1], repairs[|repairs| - 1];
    if e in Declared(body, targets, front) {
      DeclaredComeFromLinks(body, targets, front, e);
    } else {
      EditsComeFromLinks(body, targets, last, e);
    }
  }

  ghost predicate SpanOf(body: string, t: Target, span: Span) {
    DestinationIn(body, t.source, t.href) == Some(span)
  }

  lemma LinkEditLies(body: string, targets: seq<Target>, e: Edit) returns (i: nat)
    requires FromLink(body, targets, e)
    ensures i < |targets| && targets[i].source.start <= e.span.start < e.span.end <= targets[i].source.end <= |body|
    ensures targets[i].inline && SpanOf(body, targets[i], e.span)
  {
    i :| 0 <= i < |targets| && targets[i].inline && StartsWithSlash(targets[i].href)
      && DestinationIn(body, targets[i].source, targets[i].href) == Some(e.span);
    DestinationHoldsHref(body, targets[i].source, targets[i].href);
    assert |body[e.span.start..e.span.end]| > 0;
  }

  // A link for which no span is found stays as it is, whatever the repairs do elsewhere.
  lemma SkippedLinkStays(body: string, targets: seq<Target>, repairs: seq<Repair>, i: nat, e: Edit)
    requires LinksApart(targets) && i < |targets| && targets[i].inline
    requires DestinationIn(body, targets[i].source, targets[i].href).None?
    requires Problem(body, targets, repairs).None? && e in Declared(body, targets, repairs)
    ensures Apart(e.span, targets[i].source)
  {
    DeclaredComeFromLinks(body, targets, repairs, e);
    var j := LinkEditLies(body, targets, e);
    OtherLinkIsApart(body, targets[i], targets[j], e.span);
    ApartBySource(targets, i, j, e.span);
  }

  lemma OtherLinkIsApart(body: string, skipped: Target, found: Target, span: Span)
    requires DestinationIn(body, skipped.source, skipped.href).None? && SpanOf(body, found, span)
    ensures skipped != found
  {
  }

  lemma ApartBySource(targets: seq<Target>, i: nat, j: nat, span: Span)
    requires LinksApart(targets) && i < |targets| && j < |targets| && targets[i] != targets[j]
    requires targets[i].inline && targets[j].inline
    requires targets[j].source.start <= span.start <= span.end <= targets[j].source.end
    ensures Apart(span, targets[i].source)
  {
    assert Apart(targets[i].source, targets[j].source);
  }

  lemma LinkEditsCompatible(body: string, targets: seq<Target>, a: Edit, b: Edit)
    requires LinksApart(targets) && FromLink(body, targets, a) && FromLink(body, targets, b)
    ensures a.span.start < a.span.end <= |body|
    ensures a.span == b.span || Apart(a.span, b.span)
  {
    var i := LinkEditLies(body, targets, a);
    var j := LinkEditLies(body, targets, b);
    if targets[i] != targets[j] {
      ApartInside(targets[i].source, targets[j].source, a.span, b.span);
    }
  }

  lemma ApartInside(outer: Span, outer': Span, a: Span, b: Span)
    requires Apart(outer, outer')
    requires outer.start <= a.start <= a.end <= outer.end
    requires outer'.start <= b.start <= b.end <= outer'.end
    ensures Apart(a, b)
  {
  }

  // Sorting, dropping repeats and splicing from the right is the simultaneous
  // substitution of the first declared edit of every span.
  lemma ChosenEdits(body: string, declared: seq<Edit>)
    requires Compatible(declared) && Proper(declared, |body|)
    ensures var chosen := Reverse(DropRepeats(SortDescending(declared)));
      Ascending(chosen, 0, |body|) && FirstForEverySpan(declared, chosen)
  {
    var sorted := SortDescending(declared);
    var dropped := DropRepeats(sorted);
    var chosen := Reverse(dropped);
    SortDescends(declared);
    DroppedRunsRightToLeft(sorted, |body|);
    ReversedAscends(dropped, |body|);
    forall e | e in declared ensures exists c :: c in chosen && c.span == e.span {
      FirstIsThere(declared, e);
      SortKeepsFirst(declared, e.span);
      DropKeepsFirst(sorted, e.span);
      FirstIsIn(dropped, e.span);
      ReverseHolds(dropped, FirstWith(dropped, e.span).value);
    }
    forall e | e in chosen ensures FirstWith(declared, e.span) == Some(e) {
      ReverseHolds(dropped, e);
      SortKeepsFirst(declared, e.span);
      DropKeepsFirst(sorted, e.span);
      RightToLeftFirst(dropped, |body|, e);
    }
  }

  lemma {:induction false} FirstIsThere(edits: seq<Edit>, e: Edit)
    requires e in edits
    ensures FirstWith(edits, e.span).Some?
  {
    if edits[0] != e { FirstIsThere(edits[1..], e); }
  }

  lemma {:induction false} FirstIsIn(edits: seq<Edit>, span: Span)
    ensures var r := FirstWith(edits, span); r.Some? ==> r.value in edits && r.value.span == span
  {
    if edits != [] { FirstIsIn(edits[1..], span); }
  }

  lemma {:induction false} RightToLeftFirst(edits: seq<Edit>, limit: nat, e: Edit)
    requires RightToLeft(edits, limit) && e in edits
    ensures FirstWith(edits, e.span) == Some(e)
    ensures e.span.start < e.span.end <= limit
  {
    if edits[0] != e {
      RightToLeftFirst(edits[1..], edits[0].span.start, e);
    }
  }

  lemma EditsForMore(body: string, targets: seq<Target>, i: nat, repair: Repair)
    requires i < |targets|
    ensures EditsFor(body, targets[..i + 1], repair)
      == EditsFor(body, targets[..i], repair) + EditOf(body, targets[i], repair)
  {
    assert targets[..i + 1][..i] == targets[..i];
  }

  method EditsOf(body: string, targets: seq<Target>, repair: Repair) returns (edits: seq<Edit>, matched: bool)
    ensures edits == EditsFor(body, targets, repair)
    ensures matched <==> edits != []
  {
    edits, matched := [], false;
    var i := 0;
    while i < |targets|
      invariant 0 <= i <= |targets|
      invariant edits == EditsFor(body, targets[..i], repair)
      invariant matched <==> edits != []
    {
      EditsForMore(body, targets, i, repair);
      if targets[i].inline && targets[i].href == repair.authored {
        var span := InlineDestinationSpan(body, targets[i].source, targets[i].href);
        if span.Some? {
          edits := edits + [Edit(span.value, repair.replacement)];
          matched := true;
        }
      }
      i := i + 1;
    }
    assert targets[..i] == targets;
  }

  // The repaired body is the simultaneous substitution, in the original, of the first
  // declared edit of every named destination; or the repairs are refused, for the first
  // one that is not valid or not live.
  method ApplyRepairs(body: string, targets: seq<Target>, repairs: seq<Repair>) returns (outcome: Outcome)
    requires LinksApart(targets)
    ensures repairs == [] ==> outcome == Refused(NothingSelected)
    ensures repairs != [] && outcome.Refused? ==> RefusedForFirst(body, targets, repairs, outcome.error)
    ensures outcome.Repaired? ==> AllAcceptable(body, targets, repairs)
    ensures outcome.Repaired? ==> exists chosen :: RepairedBy(body, targets, repairs, chosen, outcome.body)
  {
    if repairs == [] { return Refused(NothingSelected); }
    var replacements: seq<Edit> := [];
    var i := 0;
    while i < |repairs|
      invariant 0 <= i <= |repairs|
      invariant replacements == Declared(body, targets, repairs[..i])
      invariant Problem(body, targets, repairs[..i]).None?
    {
      DecidedAt(body, targets, repairs, i);
      var invalid := Validate(repairs[i]);
      if invalid.Some? { return Refused(invalid.value); }
      var edits, matched := EditsOf(body, targets, repairs[i]);
      if !matched { return Refused(NoLiveLink); }
      replacements := replacements + edits;
      i := i + 1;
    }
    assert repairs[..i] == repairs;
    ProblemReasons(body, targets, repairs);
    DeclaredAreApart(body, targets, repairs);
    ChosenEdits(body, replacements);
    ChosenAsAsked(body, targets, repairs, Reverse(DropRepeats(SortDescending(replacements))));
    var normalized := SpliceAll(body, DropRepeats(SortDescending(replacements)));
    ChosenRepair(body, targets, repairs, Reverse(DropRepeats(SortDescending(replacements))), normalized);
    outcome := Repaired(normalized);
  }

  lemma DeclaredAreApart(body: string, targets: seq<Target>, repairs: seq<Repair>)
    requires LinksApart(targets) && Problem(body, targets, repairs).None?
    ensures var edits := Declared(body, targets, repairs);
      forall a, b | a in edits && b in edits ::
        a.span.start < a.span.end <= |body| && (a.span == b.span || Apart(a.span, b.span))
  {
    var edits := Declared(body, targets, repairs);
    forall a, b | a in edits && b in edits
      ensures a.span.start < a.span.end <= |body| && (a.span == b.span || Apart(a.span, b.span))
    {
      DeclaredComeFromLinks(body, targets, repairs, a);
      DeclaredComeFromLinks(body, targets, repairs, b);
      LinkEditsCompatible(body, targets, a, b);
    }
  }

  // The new text comes from these edits, which are the ones asked for.
  ghost predicate RepairedBy(body: string, targets: seq<Target>, repairs: seq<Repair>, chosen: seq<Edit>,
                             changed: string)
  {
    && Ascending(chosen, 0, |body|) && AsAsked(body, targets, repairs, chosen)
    && changed == Substitute(body, 0, chosen) && IsRewritten(body, chosen, changed)
  }

  lemma ChosenRepair(body: string, targets: seq<Target>, repairs: seq<Repair>, chosen: seq<Edit>, changed: string)
    requires Ascending(chosen, 0, |body|) && AsAsked(body, targets, repairs, chosen)
    requires changed == Substitute(body, 0, chosen)
    ensures RepairedBy(body, targets, repairs, chosen, changed)
  {
    var at := SubstituteRewrites(body, 0, chosen, "", changed);
  }

  // What one more repair decides.
  lemma DecidedAt(body: string, targets: seq<Target>, repairs: seq<Repair>, i: nat)
    requires i < |repairs| && Problem(body, targets, repairs[..i]).None?
    ensures Declared(body, targets, repairs[..i + 1])
      == Declared(body, targets, repairs[..i]) + EditsFor(body, targets, repairs[i])
    ensures var p := ProblemOf(body, targets, repairs[i]);
      if p.Some? then RefusedForFirst(body, targets, repairs, p.value)
      else Problem(body, targets, repairs[..i + 1]).None?
  {
    assert repairs[..i + 1][..i] == repairs[..i];
    ProblemStays(body, targets, repairs, i + 1);
    ProblemReasons(body, targets, repairs);
  }

  lemma {:induction false} ProblemStays(body: string, targets: seq<Target>, repairs: seq<Repair>, i: nat)
    requires i <= |repairs|
    ensures var p := Problem(body, targets, repairs[..i]); p.Some? ==> Problem(body, targets, repairs) == p
    decreases |repairs|
  {
    if i < |repairs| {
      var front := repairs[..|repairs| - 1];
      assert front[..i] == repairs[..i];
      ProblemStays(body, targets, front, i);
    } else {
      assert repairs[..i] == repairs;
    }
  }
}
