/** What the parameter-hole check means for a stored template: literal parts with declared
    parameters, each in one of its six spellings, between them. */
module ContractTemplates {
  import opened Options
  import opened StringOrder
  import opened CanonicalText
  import opened ParameterHoles
  import opened Templates
  import opened ReceivedTexts
  import opened Attestation

  datatype Style = At | DollarBrace | Dollar | Colon | DoubleBrace | Brace

  datatype Hole = Hole(name: string, style: Style)

  function Spelled(h: Hole): (s: string)
    ensures s != ""
  {
    match h.style
    case At => "@" + h.name
    case DollarBrace => "${" + h.name + "}"
    case Dollar => "$" + h.name
    case Colon => ":" + h.name
    case DoubleBrace => "{{" + h.name + "}}"
    case Brace => "{" + h.name + "}"
  }

  function SpelledAll(holes: seq<Hole>): (r: seq<string>)
    ensures |r| == |holes|
  {
    if holes == [] then [] else [Spelled(holes[0])] + SpelledAll(holes[1..])
  }

  // The place of a style among the spellings of a name.
  function Order(style: Style): nat {
    match style
    case At => 0
    case DollarBrace => 1
    case Dollar => 2
    case Colon => 3
    case DoubleBrace => 4
    case Brace => 5
  }

  // A spelling that ends with the name, so that the text behind can continue it.
  predicate Bare(style: Style) {
    style.At? || style.Dollar? || style.Colon?
  }

  // ----- Plain templates

  predicate Sigil(c: char) {
    c == '@' || c == '$' || c == ':' || c == '{'
  }

  ghost predicate PlainText(s: string) {
    forall k | 0 <= k < |s| :: !Sigil(s[k])
  }

  ghost predicate PlainName(name: string) {
    Clean(name) && PlainText(name) && '}' !in name
  }

  // No character that begins a spelling stands in a name or a literal part, and every hole
  // is a declared parameter.
  ghost predicate Plain(names: seq<string>, literals: seq<string>, holes: seq<Hole>) {
    && (forall n | n in names :: PlainName(n))
    && (forall i | 0 <= i < |literals| :: PlainText(literals[i]))
    && (forall i | 0 <= i < |holes| :: holes[i].name in names)
  }

  // ----- Where a spelling can stand

  lemma PlainPrefix(m: string, x: string, rest: string)
    requires PlainText(m) && m <= x + rest && (rest == "" || Sigil(rest[0]))
    ensures m <= x
  {
    assert forall k | 0 <= k < |m| :: (x + rest)[k] == m[k];
    assert rest != "" ==> (x + rest)[|x|] == rest[0];
  }

  lemma BraceEnds(m: string, n: string, rest: string)
    requires '}' !in m && '}' !in n && m + "}" <= n + "}" + rest
    ensures m == n
  {
    var text := n + "}" + rest;
    UpToStops(n, '}', "}" + rest);
    assert text == n + ("}" + rest);
    var tail := text[|m|..];
    assert text == m + tail && tail[0] == '}';
    UpToStops(m, '}', tail);
  }

  lemma SameStyle(h: Hole, g: Hole, rest: string)
    requires PlainName(h.name) && PlainName(g.name) && Spelled(h) <= Spelled(g) + rest
    ensures h.style == g.style
  {
    var (p, s) := (Spelled(h), Spelled(g) + rest);
    assert p[0] == s[0] && p[1] == s[1];
    assert !Sigil(h.name[0]) && !Sigil(g.name[0]);
  }

  lemma DropOpening(opening: string, x: string, y: string, all: string)
    requires all == opening + y && opening + x <= all
    ensures x <= y
  {
    assert all[|opening|..] == y && (opening + x)[|opening|..] == x;
  }

  // A name and its closing braces in front of another name and its closing braces.
  lemma SameName(opening: string, closing: string, m: string, n: string, all: string, rest: string)
    requires '}' !in m && '}' !in n && closing != "" && closing[0] == '}'
    requires all == opening + n + closing + rest && opening + m + closing <= all
    ensures m == n
  {
    var more := closing[1..] + rest;
    assert closing == "}" + closing[1..];
    assert all == opening + (n + "}" + more);
    assert opening + (m + closing) == opening + m + closing;
    DropOpening(opening, m + closing, n + "}" + more, all);
    assert m + "}" <= m + closing;
    BraceEnds(m, n, more);
  }

  // One spelling in front of another: the same style, and the same name or a part of it.
  lemma SpelledPrefix(h: Hole, g: Hole, rest: string)
    requires PlainName(h.name) && PlainName(g.name) && Spelled(h) <= Spelled(g) + rest
    ensures h.style == g.style
    ensures if Bare(h.style) then h.name <= g.name + rest else h.name == g.name
  {
    SameStyle(h, g, rest);
    var s := Spelled(g) + rest;
    match h.style
    case At => DropOpening("@", h.name, g.name + rest, s);
    case Dollar => DropOpening("$", h.name, g.name + rest, s);
    case Colon => DropOpening(":", h.name, g.name + rest, s);
    case DollarBrace => SameName("${", "}", h.name, g.name, s, rest);
    case DoubleBrace => SameName("{{", "}}", h.name, g.name, s, rest);
    case Brace => SameName("{", "}", h.name, g.name, s, rest);
  }

  // Inside a spelling only the shorter braces of the same name begin.
  lemma SpelledInside(h: Hole, g: Hole, j: nat, rest: string)
    requires PlainName(h.name) && PlainName(g.name) && 1 <= j < |Spelled(g)|
    requires Spelled(h) <= Spelled(g)[j..] + rest
    ensures h == Hole(g.name, Brace) && (g.style.DollarBrace? || g.style.DoubleBrace?)
  {
    var s := Spelled(g);
    assert Spelled(h)[0] == s[j] && Sigil(s[j]);
    SigilsOfSpelled(g, j);
    BracesInside(g, rest);
    if g.style.DollarBrace? {
      SpelledPrefix(h, Hole(g.name, Brace), rest);
    } else {
      SpelledPrefix(h, Hole(g.name, Brace), "}" + rest);
    }
  }

  lemma BracesInside(g: Hole, rest: string)
    ensures g.style.DollarBrace? ==> Spelled(g)[1..] + rest == Spelled(Hole(g.name, Brace)) + rest
    ensures g.style.DoubleBrace? ==> Spelled(g)[1..] + rest == Spelled(Hole(g.name, Brace)) + ("}" + rest)
  {
  }

  lemma SigilsOfSpelled(g: Hole, j: nat)
    requires PlainName(g.name) && 1 <= j < |Spelled(g)| && Sigil(Spelled(g)[j])
    ensures j == 1 && (g.style.DollarBrace? || g.style.DoubleBrace?)
  {
  }

  // ----- The spellings in the order they are tried

  lemma SpelledIsListed(h: Hole)
    ensures |Spellings(h.name)| == 6 && Spellings(h.name)[Order(h.style)] == Spelled(h)
  {
  }

  lemma ListedIsSpelled(name: string, i: nat) returns (h: Hole)
    requires i < 6
    ensures h.name == name && Order(h.style) == i && Spellings(name)[i] == Spelled(h)
  {
    var style := if i == 0 then At else if i == 1 then DollarBrace else if i == 2 then Dollar
                 else if i == 3 then Colon else if i == 4 then DoubleBrace else Brace;
    h := Hole(name, style);
  }

  lemma CleanIsCanonical(w: string)
    requires Clean(w)
    ensures Canonical(w) == w
  {
    WordsOfJoined([w]);
  }

  lemma SpelledClean(name: string)
    requires Clean(name)
    ensures forall k | 0 <= k < 6 :: Clean(Spellings(name)[k])
  {
  }

  lemma SpelledIsCanonical(name: string)
    requires Clean(name)
    ensures forall k | 0 <= k < 6 :: Canonical(Spellings(name)[k]) == Spellings(name)[k]
  {
    SpelledClean(name);
    forall k | 0 <= k < 6 ensures Canonical(Spellings(name)[k]) == Spellings(name)[k] {
      CleanIsCanonical(Spellings(name)[k]);
    }
  }

  lemma SpelledOnceOnly(h: Hole, g: Hole)
    requires PlainName(h.name) && PlainName(g.name) && Spelled(h) == Spelled(g)
    ensures h == g
  {
    assert Spelled(g) + "" == Spelled(g);
    SpelledPrefix(h, g, "");
    SpelledPrefix(g, h, "");
    assert h.name + "" == h.name && g.name + "" == g.name;
  }

  ghost predicate AllCanonical(list: seq<string>) {
    forall i | 0 <= i < |list| :: Canonical(list[i]) == list[i]
  }

  // Those of the list that occur.
  function Found(list: seq<string>, stored: string): seq<string> {
    if list == [] then []
    else (if Find(stored, list[0]).Some? then [list[0]] else []) + Found(list[1..], stored)
  }

  lemma {:induction false} OccurringAreFound(list: seq<string>, stored: string)
    requires AllCanonical(list)
    ensures Occurring(list, stored) == Found(list, stored)
  {
    if list != [] { OccurringAreFound(list[1..], stored); }
  }

  // Of those, the earlier stands before the later.
  lemma {:induction false} FoundOrder(list: seq<string>, stored: string, a: nat, b: nat, k: nat)
    requires a < b < |list| && k < |Found(list, stored)| && Distinct(list)
    requires Find(stored, list[a]).Some? && Found(list, stored)[k] == list[b]
    ensures list[a] in Found(list, stored)[..k]
  {
    var rest := Found(list[1..], stored);
    if Find(stored, list[0]).None? {
      assert Found(list, stored) == rest;
      FoundOrder(list[1..], stored, a - 1, b - 1, k);
    } else {
      assert Found(list, stored) == [list[0]] + rest;
      BehindFirst(list[0], rest, list[b], k);
      if a > 0 { FoundOrder(list[1..], stored, a - 1, b - 1, k - 1); }
    }
  }

  lemma BehindFirst(first: string, rest: seq<string>, x: string, k: nat)
    requires k <= |rest| && ([first] + rest)[k] == x != first
    ensures k > 0 && rest[k - 1] == x && ([first] + rest)[..k] == [first] + rest[..k - 1]
  {
  }

  lemma {:induction false} OccurringFrom(list: seq<string>, stored: string, k: nat) returns (i: nat)
    requires k < |Occurring(list, stored)|
    ensures i < |list| && Occurring(list, stored)[k] == Canonical(list[i])
  {
    var hit := Hit(list[0], stored);
    if k < |hit| {
      i := 0;
    } else {
      i := OccurringFrom(list[1..], stored, k - |hit|);
      i := i + 1;
    }
  }

  // The first place of a name among the declared ones.
  function FirstIndex(names: seq<string>, name: string): nat
    requires name in names
  {
    if names[0] == name then 0 else 1 + FirstIndex(names[1..], name)
  }

  ghost predicate Earlier(names: seq<string>, g: Hole, h: Hole)
    requires g.name in names && h.name in names
  {
    FirstIndex(names, g.name) < FirstIndex(names, h.name) || (g.name == h.name && Order(g.style) < Order(h.style))
  }

  // Names declared earlier, and earlier spellings of the same name, are tried before.
  lemma {:induction false} EarlierIsBefore(names: seq<string>, stored: string, g: Hole, h: Hole, k: nat)
    requires forall n | n in names :: PlainName(n)
    requires g.name in names && h.name in names && Earlier(names, g, h)
    requires Find(stored, Spelled(g)).Some?
    requires k < |Placeholders(names, stored)| && Placeholders(names, stored)[k] == Spelled(h)
    ensures Spelled(g) in Placeholders(names, stored)[..k]
    decreases |names|
  {
    var (first, rest) := (Occurring(Spellings(names[0]), stored), Placeholders(names[1..], stored));
    var all := first + rest;
    var n := names[0];
    assert PlainName(n);
    if k < |first| {
      FromFirstName(n, stored, h, k);
      EarlierSpelling(n, stored, g, h, k);
      assert all[..k] == first[..k];
    } else {
      assert all[..k] == first + rest[..k - |first|];
      if g.name == n {
        SpelledOccurs(g, stored);
      } else {
        EarlierIsBefore(names[1..], stored, g, h, k - |first|);
      }
    }
  }

  lemma SpelledOccurs(g: Hole, stored: string)
    requires Clean(g.name) && Find(stored, Spelled(g)).Some?
    ensures Spelled(g) in Occurring(Spellings(g.name), stored)
  {
    SpelledIsCanonical(g.name);
    SpelledIsListed(g);
    OccurringAll(Spellings(g.name), stored, Spelled(g));
  }

  lemma EarlierSpelling(n: string, stored: string, g: Hole, h: Hole, k: nat)
    requires PlainName(n) && g.name == h.name == n && Order(g.style) < Order(h.style)
    requires Find(stored, Spelled(g)).Some?
    requires k < |Occurring(Spellings(n), stored)| && Occurring(Spellings(n), stored)[k] == Spelled(h)
    ensures Spelled(g) in Occurring(Spellings(n), stored)[..k]
  {
    SpelledIsCanonical(n);
    SpelledIsListed(g);
    SpelledIsListed(h);
    SpellingsDiffer(n);
    OccurringAreFound(Spellings(n), stored);
    FoundOrder(Spellings(n), stored, Order(g.style), Order(h.style), k);
  }

  lemma SpellingsDiffer(name: string)
    requires PlainName(name)
    ensures Distinct(Spellings(name))
  {
    var s := Spellings(name);
    assert !Sigil(name[0]);
    assert s[0][0] == '@' && s[1][0] == '$' && s[2][0] == '$' && s[3][0] == ':' && s[4][0] == '{' && s[5][0] == '{';
    assert s[1][1] == '{' && s[2][1] == name[0] && s[4][1] == '{' && s[5][1] == name[0];
  }

  // A spelling that the first name gave is one of its own.
  lemma FromFirstName(n: string, stored: string, h: Hole, k: nat)
    requires PlainName(n) && PlainName(h.name)
    requires k < |Occurring(Spellings(n), stored)| && Occurring(Spellings(n), stored)[k] == Spelled(h)
    ensures h.name == n
  {
    SpelledIsCanonical(n);
    var i := OccurringFrom(Spellings(n), stored, k);
    var g := ListedIsSpelled(n, i);
    SpelledOnceOnly(h, g);
  }

  // ----- How a stored template is read

  // The first declared name that the text begins with.
  function FirstDeclared(names: seq<string>, text: string): (r: string)
    ensures r <= text
  {
    if names == [] then "" else if names[0] <= text then names[0] else FirstDeclared(names[1..], text)
  }

  lemma {:induction false} FirstDeclaredHolds(names: seq<string>, text: string, n: string)
    requires n in names && n <= text
    ensures var r := FirstDeclared(names, text);
      r in names && (r == n || FirstIndex(names, r) < FirstIndex(names, n))
  {
    if !(names[0] <= text) {
      FirstDeclaredHolds(names[1..], text, n);
      var r := FirstDeclared(names[1..], text);
      assert r <= text;
    }
  }

  // A bare hole takes the first declared name that its own name and the literal behind spell.
  function ReadHole(names: seq<string>, h: Hole, behind: string): Hole {
    if Bare(h.style) then Hole(FirstDeclared(names, h.name + behind), h.style) else h
  }

  function ReadLiteral(names: seq<string>, h: Hole, behind: string): string {
    if Bare(h.style) then (h.name + behind)[|FirstDeclared(names, h.name + behind)|..] else behind
  }

  // `behind` holds the literal part behind each hole.
  function ReadHoles(names: seq<string>, holes: seq<Hole>, behind: seq<string>): (r: seq<Hole>)
    requires |holes| == |behind|
    ensures |r| == |holes|
  {
    if holes == [] then [] else [ReadHole(names, holes[0], behind[0])] + ReadHoles(names, holes[1..], behind[1..])
  }

  function ReadLiterals(names: seq<string>, holes: seq<Hole>, behind: seq<string>): (r: seq<string>)
    requires |holes| == |behind|
    ensures |r| == |holes|
  {
    if holes == [] then [] else [ReadLiteral(names, holes[0], behind[0])] + ReadLiterals(names, holes[1..], behind[1..])
  }

  // Read so, it is the same stored text.
  lemma {:induction false} SameStoredText(names: seq<string>, first: string, holes: seq<Hole>, behind: seq<string>)
    requires |holes| == |behind|
    ensures Fill([first] + ReadLiterals(names, holes, behind), SpelledAll(ReadHoles(names, holes, behind)))
         == Fill([first] + behind, SpelledAll(holes))
    decreases |holes|
  {
    if holes != [] {
      SameStoredText(names, behind[0], holes[1..], behind[1..]);
    }
  }

  lemma PlainRead(names: seq<string>, h: Hole, behind: string)
    requires forall n | n in names :: PlainName(n)
    requires h.name in names && PlainText(behind)
    ensures ReadHole(names, h, behind).name in names && PlainText(ReadLiteral(names, h, behind))
  {
    FirstDeclaredHolds(names, h.name + behind, h.name);
    assert PlainName(h.name);
  }

  lemma {:induction false} AllPlainRead(names: seq<string>, holes: seq<Hole>, behind: seq<string>)
    requires |holes| == |behind| && forall n | n in names :: PlainName(n)
    requires forall i | 0 <= i < |holes| :: holes[i].name in names && PlainText(behind[i])
    ensures forall i | 0 <= i < |holes| ::
      ReadHoles(names, holes, behind)[i].name in names && PlainText(ReadLiterals(names, holes, behind)[i])
  {
    if holes != [] {
      PlainRead(names, holes[0], behind[0]);
      AllPlainRead(names, holes[1..], behind[1..]);
    }
  }

  // ----- Splitting reads the template so

  lemma NoStartInPlain(h: Hole, x: string, rest: string)
    requires PlainText(x)
    ensures NoStart(Spelled(h), x, rest)
  {
    forall k | 0 <= k < |x| ensures !(Spelled(h) <= x[k..] + rest) {
      assert (x[k..] + rest)[0] == x[k] && Sigil(Spelled(h)[0]);
    }
  }

  // Nothing that is tried before a hole's own spelling begins in the hole.
  lemma NoStartInHole(names: seq<string>, stored: string, h: Hole, k: nat, o: Hole, behind: string, rest: string)
    requires (forall n | n in names :: PlainName(n)) && h.name in names && o.name in names && PlainText(behind)
    requires k < |Placeholders(names, stored)| && Placeholders(names, stored)[k] == Spelled(h)
    requires var g := ReadHole(names, o, behind);
      Find(stored, Spelled(g)).Some? && Spelled(g) != Spelled(h) && Spelled(g) !in Placeholders(names, stored)[..k]
    requires rest == "" || Sigil(rest[0])
    ensures NoStart(Spelled(h), Spelled(ReadHole(names, o, behind)), ReadLiteral(names, o, behind) + rest)
  {
    var (g, r) := (ReadHole(names, o, behind), ReadLiteral(names, o, behind));
    PlainRead(names, o, behind);
    forall j | 0 <= j < |Spelled(g)| ensures !(Spelled(h) <= Spelled(g)[j..] + (r + rest)) {
      if Spelled(h) <= Spelled(g)[j..] + (r + rest) {
        StartIsEarlier(names, h, o, behind, j, rest);
        EarlierIsBefore(names, stored, g, h, k);
      }
    }
  }

  lemma StartIsEarlier(names: seq<string>, h: Hole, o: Hole, behind: string, j: nat, rest: string)
    requires (forall n | n in names :: PlainName(n)) && h.name in names && o.name in names && PlainText(behind)
    requires rest == "" || Sigil(rest[0])
    requires var (g, r) := (ReadHole(names, o, behind), ReadLiteral(names, o, behind));
      g.name in names && j < |Spelled(g)| && Spelled(h) <= Spelled(g)[j..] + (r + rest)
    ensures var g := ReadHole(names, o, behind); g == h || Earlier(names, g, h)
  {
    var (g, r) := (ReadHole(names, o, behind), ReadLiteral(names, o, behind));
    if j > 0 {
      SpelledInside(h, g, j, r + rest);
    } else {
      assert Spelled(g)[0..] == Spelled(g);
      SpelledPrefix(h, g, r + rest);
      if Bare(h.style) {
        var text := o.name + behind;
        var n := |g.name|;
        assert g.name + r == text by { assert text[..n] + text[n..] == text; }
        assert g.name + (r + rest) == text + rest;
        assert PlainName(h.name);
        PlainPrefix(h.name, text, rest);
        FirstDeclaredHolds(names, text, h.name);
      }
    }
  }

  // The text behind a literal part begins with the next spelling.
  lemma BehindBeginsWithSigil(first: string, literals: seq<string>, holes: seq<Hole>)
    requires |literals| == |holes|
    ensures exists rest :: Fill([first] + literals, SpelledAll(holes)) == first + rest && (rest == "" || Sigil(rest[0]))
  {
    var text := Fill([first] + literals, SpelledAll(holes));
    if holes == [] {
      assert text == first + "";
    } else {
      var rest := Spelled(holes[0]) + Fill(literals, SpelledAll(holes[1..]));
      assert ([first] + literals)[1..] == literals;
      assert text == first + rest && Sigil(rest[0]);
    }
  }

  lemma {:induction false} ReadInHolesOnly(names: seq<string>, stored: string, h: Hole, k: nat,
                                           first: string, holes: seq<Hole>, behind: seq<string>)
    requires |holes| == |behind| && (forall n | n in names :: PlainName(n)) && h.name in names && PlainText(first)
    requires forall i | 0 <= i < |holes| :: holes[i].name in names && PlainText(behind[i])
    requires k < |Placeholders(names, stored)| && Placeholders(names, stored)[k] == Spelled(h)
    requires forall i | 0 <= i < |holes| :: Find(stored, Spelled(ReadHoles(names, holes, behind)[i])).Some?
    ensures InHolesOnly(Spelled(h), [first] + ReadLiterals(names, holes, behind),
                        SpelledAll(ReadHoles(names, holes, behind)),
                        Elements(Placeholders(names, stored)[..k]))
    decreases |holes|
  {
    var (literals, read) := ([first] + ReadLiterals(names, holes, behind), ReadHoles(names, holes, behind));
    if holes == [] {
      NoStartInPlain(h, first, "");
    } else {
      PlainRead(names, holes[0], behind[0]);
      var r := ReadLiteral(names, holes[0], behind[0]);
      assert forall i | 0 <= i < |holes[1..]| :: ReadHoles(names, holes[1..], behind[1..])[i] == read[i + 1];
      ReadInHolesOnly(names, stored, h, k, r, holes[1..], behind[1..]);
      var tail := [r] + ReadLiterals(names, holes[1..], behind[1..]);
      assert literals[1..] == tail && SpelledAll(read)[1..] == SpelledAll(ReadHoles(names, holes[1..], behind[1..]));
      var text := Fill(tail, SpelledAll(ReadHoles(names, holes[1..], behind[1..])));
      NoStartInPlain(h, first, Spelled(read[0]) + text);
      if Spelled(read[0]) != Spelled(h) && Spelled(read[0]) !in Placeholders(names, stored)[..k] {
        BehindBeginsWithSigil(r, ReadLiterals(names, holes[1..], behind[1..]),
                              ReadHoles(names, holes[1..], behind[1..]));
        var rest :| text == r + rest && (rest == "" || Sigil(rest[0]));
        NoStartInHole(names, stored, h, k, holes[0], behind[0], rest);
      }
    }
  }

  lemma {:induction false} HoleOccurs(literals: seq<string>, inner: seq<string>, i: nat)
    requires |literals| == |inner| + 1 && i < |inner|
    ensures Find(Fill(literals, inner), inner[i]).Some?
    decreases i
  {
    var text := Fill(literals, inner);
    var rest := Fill(literals[1..], inner[1..]);
    assert text == literals[0] + inner[0] + rest;
    if i == 0 {
      FindIsLeftmost(text, inner[0], |literals[0]|);
    } else {
      HoleOccurs(literals[1..], inner[1..], i - 1);
      FindOccurs(rest, inner[i]);
      FindIsLeftmost(text, inner[i], |literals[0]| + |inner[0]| + Find(rest, inner[i]).value);
    }
  }

  // The segments the splitter leaves, by the names and literal parts alone.
  function Reading(names: seq<string>, literals: seq<string>, holes: seq<Hole>): (r: seq<string>)
    requires |literals| == |holes| + 1
    ensures |r| == |literals|
  {
    [literals[0]] + ReadLiterals(names, holes, literals[1..])
  }

  function Stored(literals: seq<string>, holes: seq<Hole>): string
    requires |literals| == |holes| + 1
  {
    Fill(literals, SpelledAll(holes))
  }

  lemma DeclaredSpelling(names: seq<string>, p: string) returns (h: Hole)
    requires (forall n | n in names :: PlainName(n)) && IsSpelling(names, p)
    ensures h.name in names && p == Spelled(h)
  {
    var name, s :| name in names && s in Spellings(name) && p == Canonical(s);
    var i :| 0 <= i < |Spellings(name)| && Spellings(name)[i] == s;
    assert PlainName(name);
    SpelledIsCanonical(name);
    h := ListedIsSpelled(name, i);
  }

  lemma SpelledIsDeclared(names: seq<string>, h: Hole)
    requires h.name in names && PlainName(h.name)
    ensures IsSpelling(names, Spelled(h))
  {
    SpelledIsListed(h);
    SpelledIsCanonical(h.name);
    assert Spelled(h) in Spellings(h.name);
  }

  lemma {:induction false} SpelledAllAt(holes: seq<Hole>)
    ensures forall i | 0 <= i < |holes| :: SpelledAll(holes)[i] == Spelled(holes[i])
  {
    if holes != [] { SpelledAllAt(holes[1..]); }
  }

  lemma ReadTemplateReadsApart(names: seq<string>, literals: seq<string>, holes: seq<Hole>)
    requires |literals| == |holes| + 1 && Plain(names, literals, holes)
    ensures ReadsApart(Reading(names, literals, holes), SpelledAll(ReadHoles(names, holes, literals[1..])),
                       Placeholders(names, Stored(literals, holes)))
  {
    var (behind, stored) := (literals[1..], Stored(literals, holes));
    var (read, spelled) := (ReadHoles(names, holes, behind), SpelledAll(ReadHoles(names, holes, behind)));
    var placeholders := Placeholders(names, stored);
    assert literals == [literals[0]] + behind;
    assert forall i | 0 <= i < |behind| :: PlainText(behind[i]) && behind[i] == literals[i + 1];
    SameStoredText(names, literals[0], holes, behind);
    AllPlainRead(names, holes, behind);
    SpelledAllAt(read);
    PlaceholdersAreSpellings(names, stored);
    forall i | 0 <= i < |spelled| ensures Find(stored, spelled[i]).Some? && spelled[i] in placeholders {
      HoleOccurs(Reading(names, literals, holes), spelled, i);
      SpelledIsDeclared(names, read[i]);
    }
    forall k | 0 <= k < |placeholders|
      ensures InHolesOnly(placeholders[k], Reading(names, literals, holes), spelled, Elements(placeholders[..k]))
    {
      assert placeholders[k] in placeholders;
      var h := DeclaredSpelling(names, placeholders[k]);
      ReadInHolesOnly(names, stored, h, k, literals[0], holes, behind);
    }
  }

  // Declared names count in lower case.
  lemma LowerSpellings(name: string, i: nat)
    requires i < 6
    ensures Canonical(Spellings(name)[i]) == Canonical(Spellings(Lower(name))[i])
  {
    var s := Spellings(name)[i];
    var h := ListedIsSpelled(name, i);
    LowerOfSpelled(h);
    SpelledIsListed(Hole(Lower(name), h.style));
    CaseIgnored(s);
  }

  lemma LowerOfSpelled(h: Hole)
    ensures Lower(Spelled(h)) == Spelled(Hole(Lower(h.name), h.style))
  {
    LowerPointwise(Spelled(h));
    LowerPointwise(h.name);
  }

  lemma {:induction false} SameOccurring(a: seq<string>, b: seq<string>, stored: string)
    requires |a| == |b| && forall i | 0 <= i < |a| :: Canonical(a[i]) == Canonical(b[i])
    ensures Occurring(a, stored) == Occurring(b, stored)
  {
    if a != [] { SameOccurring(a[1..], b[1..], stored); }
  }

  lemma {:induction false} SamePlaceholders(parameters: seq<string>, stored: string)
    ensures Placeholders(parameters, stored) == Placeholders(LowerAll(parameters), stored)
  {
    if parameters != [] {
      var name := parameters[0];
      SamePlaceholders(parameters[1..], stored);
      forall i | 0 <= i < 6 ensures Canonical(Spellings(name)[i]) == Canonical(Spellings(Lower(name))[i]) {
        LowerSpellings(name, i);
      }
      SameOccurring(Spellings(name), Spellings(Lower(name)), stored);
    }
  }

  // Splitting a plain template leaves its literal parts, except that a bare spelling takes
  // the first declared name that it and the text behind it spell.
  lemma SegmentsAreRead(parameters: seq<string>, literals: seq<string>, holes: seq<Hole>)
    requires |literals| == |holes| + 1 && Plain(LowerAll(parameters), literals, holes)
    ensures Segments(parameters, Stored(literals, holes)) == Reading(LowerAll(parameters), literals, holes)
  {
    var (names, stored) := (LowerAll(parameters), Stored(literals, holes));
    PlaceholdersAreSpellings(names, stored);
    SamePlaceholders(parameters, stored);
    ReadTemplateReadsApart(names, literals, holes);
    assert literals == [literals[0]] + literals[1..];
    SameStoredText(names, literals[0], holes, literals[1..]);
    SplitAllLeavesLiterals(Reading(names, literals, holes), SpelledAll(ReadHoles(names, holes, literals[1..])),
                           Placeholders(names, stored));
  }

  // ----- What the check means

  // The stored shape is its own segments with declared spellings in the holes.
  lemma StoredIsAnInstance(parameters: seq<string>, stored: string) returns (holes: seq<string>)
    ensures |Segments(parameters, stored)| == |holes| + 1
    ensures Fill(Segments(parameters, stored), holes) == stored
    ensures forall h | h in holes :: IsSpelling(parameters, h)
  {
    PlaceholdersAreSpellings(parameters, stored);
    holes := SplitAllFills([stored], [], Placeholders(parameters, stored));
  }

  // Whatever text a run reports, the check accepts its shape just when that is an instance
  // of the template.
  ghost predicate MeansTemplate(parameters: seq<string>, stored: string, literals: seq<string>) {
    forall executed ::
      HolesMatch(parameters, stored, Canonical(executed)) <==> InstanceOf(literals, Canonical(executed))
  }

  lemma MeansTemplateByShapes(parameters: seq<string>, stored: string, literals: seq<string>)
    requires exists p :: IsSpelling(parameters, p) && Find(stored, p).Some?
    ensures MeansTemplate(parameters, stored, literals)
      <==> AcceptsInstancesOnly(literals, Segments(parameters, stored))
  {
    var segments := Segments(parameters, stored);
    if MeansTemplate(parameters, stored, literals) {
      forall text | Received(text) ensures Fits(segments, text) <==> InstanceOf(literals, text) {
        assert HolesMatch(parameters, stored, Canonical(text)) <==> InstanceOf(literals, Canonical(text));
      }
    }
    if AcceptsInstancesOnly(literals, segments) {
      forall executed
        ensures HolesMatch(parameters, stored, Canonical(executed)) <==> InstanceOf(literals, Canonical(executed))
      {
        CanonicalIdempotent(executed);
        assert Received(Canonical(executed));
      }
    }
  }

  // Relative to the segments the splitter leaves: only what lies between them may differ,
  // if and only if the first and the last of them are empty.
  lemma OnlyHolesDifferIffOpenEnds(parameters: seq<string>, stored: string)
    requires Received(stored) && exists p :: IsSpelling(parameters, p) && Find(stored, p).Some?
    ensures MeansTemplate(parameters, stored, Segments(parameters, stored)) <==> OpenEnds(Segments(parameters, stored))
  {
    var holes := StoredIsAnInstance(parameters, stored);
    var segments := Segments(parameters, stored);
    MeansTemplateByShapes(parameters, stored, segments);
    ReceivedInstancesIff(segments, holes, segments, holes);
  }

  // The documented reading is that only the template's holes may differ. For any template
  // the check means that if and only if a declared spelling occurs, the template begins and
  // ends with a hole, and the segments left, without empty ones, are its literal parts.
  lemma OnlyHolesDifferIffSegments(parameters: seq<string>, literals: seq<string>, spellings: seq<string>)
    requires |literals| == |spellings| + 1 && Received(Fill(literals, spellings))
    ensures var stored := Fill(literals, spellings);
      MeansTemplate(parameters, stored, literals)
      <==> (exists p :: IsSpelling(parameters, p) && Find(stored, p).Some?)
           && OpenEnds(literals) && Filled(Segments(parameters, stored)) == Filled(literals)
  {
    var stored := Fill(literals, spellings);
    if exists p :: IsSpelling(parameters, p) && Find(stored, p).Some? {
      var holes := StoredIsAnInstance(parameters, stored);
      MeansTemplateByShapes(parameters, stored, literals);
      ReceivedInstancesIff(literals, spellings, Segments(parameters, stored), holes);
    } else {
      assert InstanceOf(literals, Canonical(stored));
      assert !HolesMatch(parameters, stored, Canonical(stored));
    }
  }

  // For a plain template the condition is one on its literal parts and the declared names.
  lemma OnlyHolesDifferIff(parameters: seq<string>, literals: seq<string>, holes: seq<Hole>)
    requires |literals| == |holes| + 1 && Plain(LowerAll(parameters), literals, holes)
    requires Received(Stored(literals, holes))
    ensures MeansTemplate(parameters, Stored(literals, holes), literals)
      <==> OpenEnds(literals) && Filled(Reading(LowerAll(parameters), literals, holes)) == Filled(literals)
  {
    OnlyHolesDifferIffSegments(parameters, literals, SpelledAll(holes));
    SegmentsAreRead(parameters, literals, holes);
    if holes != [] { SomeSpellingOccurs(parameters, literals, holes); }
  }

  lemma SomeSpellingOccurs(parameters: seq<string>, literals: seq<string>, holes: seq<Hole>)
    requires |literals| == |holes| + 1 && Plain(LowerAll(parameters), literals, holes) && holes != []
    ensures exists p :: IsSpelling(parameters, p) && Find(Stored(literals, holes), p).Some?
  {
    var (names, stored) := (LowerAll(parameters), Stored(literals, holes));
    var p := Spelled(holes[0]);
    HoleOccurs(literals, SpelledAll(holes), 0);
    SpelledIsDeclared(names, holes[0]);
    PlaceholdersAreSpellings(names, stored);
    SamePlaceholders(parameters, stored);
    PlaceholdersAreSpellings(parameters, stored);
    assert p in Placeholders(parameters, stored);
  }

  // No other declared name is spelled by a bare hole and the text behind it: it is no
  // beginning of the hole's own name, and the text does not continue the name to it.
  ghost predicate NamesApart(names: seq<string>, literals: seq<string>, holes: seq<Hole>)
    requires |literals| == |holes| + 1
  {
    forall i, n | 0 <= i < |holes| && n in names && Bare(holes[i].style) && n <= holes[i].name + literals[i + 1] ::
      n == holes[i].name
  }

  // Then the template is read as it is written.
  lemma {:induction false} ReadAsWritten(names: seq<string>, literals: seq<string>, holes: seq<Hole>)
    requires |literals| == |holes| + 1 && NamesApart(names, literals, holes)
    requires forall i | 0 <= i < |holes| :: holes[i].name in names
    ensures Reading(names, literals, holes) == literals
    decreases |holes|
  {
    assert literals == [literals[0]] + literals[1..];
    if holes != [] {
      var (h, behind) := (holes[0], literals[1]);
      assert literals[1..][0] == behind;
      ReadAsWritten(names, literals[1..], holes[1..]);
      if Bare(h.style) {
        FirstDeclaredHolds(names, h.name + behind, h.name);
        assert FirstDeclared(names, h.name + behind) == h.name;
        assert (h.name + behind)[|h.name|..] == behind;
      }
    }
  }

  // With names apart, only the holes may differ if and only if there is a hole at both ends.
  lemma HolesAtBothEndsDecide(parameters: seq<string>, literals: seq<string>, holes: seq<Hole>)
    requires |literals| == |holes| + 1 && Plain(LowerAll(parameters), literals, holes)
    requires NamesApart(LowerAll(parameters), literals, holes) && Received(Stored(literals, holes))
    ensures MeansTemplate(parameters, Stored(literals, holes), literals) <==> OpenEnds(literals)
  {
    ReadAsWritten(LowerAll(parameters), literals, holes);
    OnlyHolesDifferIff(parameters, literals, holes);
  }

  // With names apart, every binding passes.
  lemma EveryBindingPasses(parameters: seq<string>, literals: seq<string>, holes: seq<Hole>, values: seq<string>)
    requires |literals| == |holes| + 1 == |values| + 1 && holes != []
    requires Plain(LowerAll(parameters), literals, holes) && NamesApart(LowerAll(parameters), literals, holes)
    ensures HolesMatch(parameters, Stored(literals, holes), Fill(literals, values))
  {
    ReadAsWritten(LowerAll(parameters), literals, holes);
    SegmentsAreRead(parameters, literals, holes);
    SomeSpellingOccurs(parameters, literals, holes);
    OwnLiteralsBind(parameters, literals, SpelledAll(holes), values);
  }

  // So does every binding with any text in front of it and behind it.
  lemma AnythingAroundPasses(parameters: seq<string>, literals: seq<string>, holes: seq<Hole>, values: seq<string>,
                             before: string, after: string)
    requires |literals| == |holes| + 1 == |values| + 1 && holes != []
    requires Plain(LowerAll(parameters), literals, holes) && NamesApart(LowerAll(parameters), literals, holes)
    ensures HolesMatch(parameters, Stored(literals, holes), before + Fill(literals, values) + after)
  {
    var segments := Segments(parameters, Stored(literals, holes));
    EveryBindingPasses(parameters, literals, holes, values);
    FitsBehindGap(segments, before, Fill(literals, values));
    FitsBeforeGap(segments, before + Fill(literals, values), after);
  }

  // In any plain template every binding passes if and only if the segments as read lie in
  // order within the literal parts, kept apart by a character that no segment holds.
  lemma EveryBindingPassesIff(parameters: seq<string>, literals: seq<string>, holes: seq<Hole>, c: char)
    requires |literals| == |holes| + 1 && holes != [] && Plain(LowerAll(parameters), literals, holes)
    requires forall i | 0 <= i < |literals| :: c !in Reading(LowerAll(parameters), literals, holes)[i]
    ensures (forall values: seq<string> | |literals| == |values| + 1 ::
               HolesMatch(parameters, Stored(literals, holes), Fill(literals, values)))
       <==> Fits(Reading(LowerAll(parameters), literals, holes), Fill(literals, Copies([c], |holes|)))
  {
    SegmentsAreRead(parameters, literals, holes);
    SomeSpellingOccurs(parameters, literals, holes);
    BindingsPassIffOneDoes(parameters, literals, SpelledAll(holes), c);
  }

  // A template: literal parts with declared spellings between them. All its bindings
  // pass exactly when the binding with one foreign character in every hole passes.
  lemma BindingsPassIffOneDoes(parameters: seq<string>, literals: seq<string>, spellings: seq<string>, c: char)
    requires |literals| == |spellings| + 1
    requires exists p :: IsSpelling(parameters, p) && Find(Fill(literals, spellings), p).Some?
    requires forall i | 0 <= i < |Segments(parameters, Fill(literals, spellings))| ::
        c !in Segments(parameters, Fill(literals, spellings))[i]
    ensures (forall values: seq<string> | |literals| == |values| + 1 ::
               HolesMatch(parameters, Fill(literals, spellings), Fill(literals, values)))
       <==> HolesMatch(parameters, Fill(literals, spellings), Fill(literals, Copies([c], |spellings|)))
  {
    OneForeignBindingDecides(literals, Segments(parameters, Fill(literals, spellings)), c);
  }

  // When splitting finds the template's own literal parts, every binding passes.
  lemma OwnLiteralsBind(parameters: seq<string>, literals: seq<string>, spellings: seq<string>, values: seq<string>)
    requires |literals| == |spellings| + 1 && |literals| == |values| + 1
    requires exists p :: IsSpelling(parameters, p) && Find(Fill(literals, spellings), p).Some?
    requires Segments(parameters, Fill(literals, spellings)) == literals
    ensures HolesMatch(parameters, Fill(literals, spellings), Fill(literals, values))
  {
    InstancesFit(literals, Fill(literals, values));
  }

  // Where names are not apart: one declared name is a beginning of another and is declared
  // first. The stored text "@longer" splits at "@shorter", and binding the longer parameter
  // to a value without the remaining letters is refused.
  lemma PrefixNameRefusesBindings(name: string, more: string, value: string)
    requires PlainName(name) && PlainName(name + more) && more != "" && Find(value, more) == None
    ensures !HolesMatch([name, name + more], Stored(["", ""], [Hole(name + more, At)]), value)
    ensures Stored(["", ""], [Hole(name + more, At)]) == "@" + (name + more)
  {
    var (names, holes) := ([name, name + more], [Hole(name + more, At)]);
    assert AllClean(names);
    LowerOfClean(names);
    SegmentsAreRead(names, ["", ""], holes);
    ReadingOfPrefix(name, more);
    LoneSegment(more, value);
    StoredOfOne(holes[0]);
  }

  lemma ReadingOfPrefix(name: string, more: string)
    ensures Reading([name, name + more], ["", ""], [Hole(name + more, At)]) == ["", more]
  {
    var (names, h) := ([name, name + more], Hole(name + more, At));
    assert name + more + "" == name + more;
    assert name <= name + more && FirstDeclared(names, name + more) == name;
    assert ReadLiteral(names, h, "") == more;
    assert ["", ""][1..] == [""] && [h][1..] == [] && [""][1..] == [];
    assert ReadLiterals(names, [h], [""]) == [more] + ReadLiterals(names, [], []);
  }

  lemma StoredOfOne(h: Hole)
    ensures Stored(["", ""], [h]) == Spelled(h)
  {
    assert ["", ""][1..] == [""] && [h][1..] == [];
    assert SpelledAll([h]) == [Spelled(h)] && [Spelled(h)][1..] == [];
    assert Fill([""], []) == "" && "" + Spelled(h) + "" == Spelled(h);
  }

  // ----- One parameter in two holes

  // Every name stands for one value, wherever it is used.
  ghost predicate OneValueEach(holes: seq<Hole>, values: seq<string>)
    requires |holes| == |values|
  {
    forall i, j | 0 <= i < j < |holes| && holes[i].name == holes[j].name :: values[i] == values[j]
  }

  ghost predicate NamesOnce(holes: seq<Hole>) {
    forall i, j | 0 <= i < j < |holes| :: holes[i].name != holes[j].name
  }

  ghost predicate AllLetters(values: seq<string>) {
    forall i | 0 <= i < |values| :: |values[i]| == 1 && Letter(values[i][0])
  }

  lemma TidyBehindLetter(before: char, x: char, s: string)
    requires Tidy(before, s) && Letter(x)
    ensures Tidy(x, s)
  {
  }

  lemma TidyParts(before: char, a: string, b: string, c: string)
    ensures Tidy(before, a + b + c) <==>
      Tidy(before, a) && Tidy(Last(before, a), b) && Tidy(Last(Last(before, a), b), c)
    ensures Last(before, a + b + c) == Last(Last(Last(before, a), b), c)
  {
    TidyConcat(before, a + b, c);
    TidyConcat(before, a, b);
  }

  // A letter in the place of every hole leaves a tidy text.
  lemma {:induction false} LettersFit(before: char, before': char, literals: seq<string>, inner: seq<string>,
                                      letters: seq<string>)
    requires |literals| == |inner| + 1 == |letters| + 1 && AllLetters(letters)
    requires before' == before || Letter(before')
    requires TidyAfter(before, Fill(literals, inner))
    ensures TidyAfter(before', Fill(literals, letters))
    decreases |literals|
  {
    if inner == [] {
      if before' != before { TidyBehindLetter(before, before', literals[0]); }
    } else {
      var (first, tail, more) := (literals[0], Fill(literals[1..], inner[1..]), Fill(literals[1..], letters[1..]));
      var x := letters[0][0];
      assert letters[0] == [x];
      TidyParts(before, first, inner[0], tail);
      if before' != before { TidyBehindLetter(before, before', first); }
      LettersFit(Last(Last(before, first), inner[0]), x, literals[1..], inner[1..], letters[1..]);
      TidyParts(before', first, [x], more);
    }
  }

  lemma LettersAreReceived(literals: seq<string>, inner: seq<string>, letters: seq<string>)
    requires |literals| == |inner| + 1 == |letters| + 1 && AllLetters(letters) && inner != []
    requires Received(Fill(literals, inner)) && Fill(literals, inner) != ""
    ensures Received(Fill(literals, letters))
  {
    ReceivedIff(Fill(literals, inner));
    LettersFit(' ', ' ', literals, inner, letters);
    TidyIsReceived(Fill(literals, letters));
  }

  // A binding the check can receive, and accepts.
  ghost predicate BindingPasses(parameters: seq<string>, literals: seq<string>, holes: seq<Hole>, values: seq<string>)
    requires |literals| == |holes| + 1 == |values| + 1
  {
    Received(Fill(literals, values)) && HolesMatch(parameters, Stored(literals, holes), Fill(literals, values))
  }

  lemma LettersPass(parameters: seq<string>, literals: seq<string>, holes: seq<Hole>, values: seq<string>)
    requires |literals| == |holes| + 1 == |values| + 1 && holes != [] && AllLetters(values)
    requires Plain(LowerAll(parameters), literals, holes)
    requires NamesApart(LowerAll(parameters), literals, holes) && Received(Stored(literals, holes))
    ensures BindingPasses(parameters, literals, holes, values)
  {
    HoleOccurs(literals, SpelledAll(holes), 0);
    LettersAreReceived(literals, SpelledAll(holes), values);
    EveryBindingPasses(parameters, literals, holes, values);
  }

  ghost predicate EachNameOneValue(parameters: seq<string>, literals: seq<string>, holes: seq<Hole>)
    requires |literals| == |holes| + 1
  {
    forall values: seq<string> | |values| == |holes| && BindingPasses(parameters, literals, holes, values) ::
      OneValueEach(holes, values)
  }

  lemma OnceIsOneValue(holes: seq<Hole>, values: seq<string>)
    requires |holes| == |values| && NamesOnce(holes)
    ensures OneValueEach(holes, values)
  {
  }

  lemma TwoValues(holes: seq<Hole>) returns (values: seq<string>)
    requires !NamesOnce(holes)
    ensures |values| == |holes| && AllLetters(values) && !OneValueEach(holes, values)
  {
    var i, j :| 0 <= i < j < |holes| && holes[i].name == holes[j].name;
    values := seq(|holes|, k => if k == i then "y" else "x");
    assert values[i] == "y" && values[j] == "x";
  }

  // The check binds every name to one value if and only if no name stands in two holes.
  lemma OneValueEachIff(parameters: seq<string>, literals: seq<string>, holes: seq<Hole>)
    requires |literals| == |holes| + 1 && Plain(LowerAll(parameters), literals, holes)
    requires NamesApart(LowerAll(parameters), literals, holes) && Received(Stored(literals, holes))
    ensures EachNameOneValue(parameters, literals, holes) <==> NamesOnce(holes)
  {
    if NamesOnce(holes) {
      forall values: seq<string> | |values| == |holes| ensures OneValueEach(holes, values) {
        OnceIsOneValue(holes, values);
      }
    } else {
      var values := TwoValues(holes);
      LettersPass(parameters, literals, holes, values);
    }
  }

  // ----- A run that put a word in front of the stored text

  lemma TwoWords(a: string, b: string)
    requires Clean(a) && Clean(b)
    ensures Join([a, b], " ") == a + " " + b && Canonical(a + " " + b) == a + " " + b
  {
    WordsOfJoined([a, b]);
    assert [a, b][1..] == [b];
  }

  lemma ThreeWords(a: string, b: string, c: string)
    requires Clean(a) && Clean(b) && Clean(c)
    ensures Canonical(a + " " + (b + " " + c)) == a + " " + (b + " " + c)
  {
    WordsOfJoined([a, b, c]);
    TwoWords(b, c);
    assert [a, b, c][1..] == [b, c];
    assert Join([a, b, c], " ") == a + " " + Join([b, c], " ");
  }

  // The stored text "verb @name" and a run of "extra verb value" with any three words.
  lemma PrefixIsSanctioned(extra: string, verb: string, name: string, value: string)
    requires Clean(extra) && Clean(verb) && Clean(value) && PlainName(name) && PlainText(verb)
    requires extra[0] != verb[0]
    ensures Sanctioned(verb + " " + ("@" + name), [name], extra + " " + (verb + " " + value))
    ensures !InstanceOf([verb + " ", ""], Canonical(extra + " " + (verb + " " + value)))
  {
    var (literals, holes) := ([verb + " ", ""], [Hole(name, At)]);
    var (stored, executed) := (verb + " " + ("@" + name), extra + " " + (verb + " " + value));
    SpelledClean(name);
    TwoWords(verb, "@" + name);
    ThreeWords(extra, verb, value);
    StoredOfVerb(verb, holes[0]);
    OneNameIsPlain(verb, name);
    BoundVerb(verb, value);
    AnythingAroundPasses([name], literals, holes, [value], extra + " ", "");
    assert extra + " " + (verb + " " + value) + "" == executed;
    assert executed[0] == extra[0] && literals[0][0] == verb[0];
    WrongEnd(literals, executed);
  }

  lemma LettersAreClean(w: string)
    requires w != "" && forall k | 0 <= k < |w| :: 'a' <= w[k] <= 'z'
    ensures PlainName(w)
  {
  }

  // For one: a run that reports "dry run x" passes for the stored "run @id".
  lemma DryRunIsSanctioned()
    ensures Sanctioned("run" + " " + ("@" + "id"), ["id"], "dry" + " " + ("run" + " " + "x"))
    ensures !InstanceOf(["run" + " ", ""], Canonical("dry" + " " + ("run" + " " + "x")))
  {
    LettersAreClean("dry");
    LettersAreClean("run");
    LettersAreClean("id");
    LettersAreClean("x");
    PrefixIsSanctioned("dry", "run", "id", "x");
  }

  lemma StoredOfVerb(verb: string, h: Hole)
    ensures Stored([verb + " ", ""], [h]) == verb + " " + Spelled(h)
  {
    assert [verb + " ", ""][1..] == [""] && [h][1..] == [];
    assert SpelledAll([h]) == [Spelled(h)] && [Spelled(h)][1..] == [];
    assert Fill([""], []) == "";
    assert verb + " " + Spelled(h) + "" == verb + " " + Spelled(h);
  }

  lemma BoundVerb(verb: string, value: string)
    ensures Fill([verb + " ", ""], [value]) == verb + " " + value
  {
    assert [verb + " ", ""][1..] == [""] && [value][1..] == [];
    assert Fill([""], []) == "";
    assert verb + " " + value + "" == verb + " " + value;
  }

  lemma OneNameIsPlain(verb: string, name: string)
    requires PlainName(name) && PlainText(verb)
    ensures Plain(LowerAll([name]), [verb + " ", ""], [Hole(name, At)])
    ensures NamesApart(LowerAll([name]), [verb + " ", ""], [Hole(name, At)])
  {
    LowerOfClean([name]);
    assert PlainText(verb + " ");
  }
}
