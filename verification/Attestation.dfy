/** Attested computations: reading the stored computation, and judging a run's
    receipt against it without executing anything. */
module Attestation {
  import opened Options
  import opened StringOrder
  import opened CanonicalText
  import Layout
  import opened ParameterHoles

  datatype Contract = Contract(
    runtime: string,
    computation: Option<string>,
    receiptFields: seq<string>,
    parameters: seq<string>)

  datatype Concept = Concept(contract: Option<Contract>, body: string)

  // The receipt's fields in key order.
  type Receipt = seq<(string, string)>

  datatype ContractError =
    | NotAComputation
    | MissingRuntime
    | NoComputation
    | AmbiguousComputation
    | UnreadableComputation

  datatype CheckOutcome = Passed | Failed | Unavailable

  datatype Attested = Attested(missing: seq<string>, provenance: CheckOutcome, fidelity: CheckOutcome, attested: bool)

  datatype Verdict = ContractUnreadable | VerdictFailed | ProvenanceEstablished

  datatype Report = Report(
    runtime: Option<string>,
    text: Option<string>,
    contractError: Option<ContractError>,
    attestation: Option<Attested>,
    verdict: Verdict)

  // ----- The inline computation

  function TrimStart(s: string): string {
    if s != [] && IsSpace(s[0]) then TrimStart(s[1..]) else s
  }

  function TrimEnd(s: string): string {
    if s != [] && IsSpace(s[|s| - 1]) then TrimEnd(s[..|s| - 1]) else s
  }

  function Trim(s: string): string {
    TrimEnd(TrimStart(s))
  }

  function DropHashes(s: string): string {
    if s != [] && s[0] == '#' then DropHashes(s[1..]) else s
  }

  // The number of marks that the text begins with.
  function Run(s: string, mark: char): nat {
    if s != [] && s[0] == mark then 1 + Run(s[1..], mark) else 0
  }

  // What a line is by itself: a heading, a fence of backticks or tildes, or anything else.
  // A fence line is bare when nothing follows its marks.
  datatype LineKind = Heading(computation: bool) | Fence(tilde: bool, width: nat, bare: bool) | Prose

  function FenceOf(trimmed: string, mark: char): LineKind {
    Fence(mark == '~', Run(trimmed, mark), Run(trimmed, mark) == |trimmed|)
  }

  function Kind(line: string): LineKind {
    var trimmed := Trim(line);
    if "#" <= trimmed then Heading(Lower(Trim(DropHashes(trimmed))) == "computation")
    else if "```" <= trimmed then FenceOf(trimmed, '`')
    else if "~~~" <= trimmed then FenceOf(trimmed, '~')
    else Prose
  }

  // The only fences the scan knows. To it a line of tildes is prose.
  predicate Backticks(kind: LineKind) {
    kind.Fence? && !kind.tilde
  }

  function Kinds(lines: seq<string>): seq<LineKind> {
    seq(|lines|, i requires 0 <= i < |lines| => Kind(lines[i]))
  }

  // The nearest heading above line k is the computation heading. A line that starts with
  // '#' is a heading wherever it stands.
  ghost predicate InSection(kinds: seq<LineKind>, k: nat) {
    exists h :: 0 <= h < k <= |kinds| && kinds[h] == Heading(true)
             && forall j | h < j < k :: !kinds[j].Heading?
  }

  ghost predicate OpensComputation(kinds: seq<LineKind>, k: nat) {
    k < |kinds| && Backticks(kinds[k]) && InSection(kinds, k)
  }

  ghost predicate NoneBefore(kinds: seq<LineKind>, k: nat) {
    forall j: nat | j < k :: !OpensComputation(kinds, j)
  }

  // A line closes an open block when its trimmed text starts with three backticks.
  predicate Closes(line: string) {
    "```" <= Trim(line)
  }

  // The block that line k opens: the lines up to the closing fence, or up to the end.
  ghost predicate Block(lines: seq<string>, k: nat, text: string) {
    exists m :: k < m <= |lines|
      && (m < |lines| ==> Closes(lines[m]))
      && (forall j | k < j < m :: !Closes(lines[j]))
      && text == Join(lines[k + 1..m], "\n")
  }

  method CollectBlock(lines: seq<string>, k: nat) returns (text: string)
    requires k < |lines|
    ensures Block(lines, k, text)
  {
    var collected: seq<string> := [];
    var m := k + 1;
    while m < |lines| && !Closes(lines[m])
      invariant k < m <= |lines|
      invariant collected == lines[k + 1..m]
      invariant forall j | k < j < m :: !Closes(lines[j])
    {
      collected := collected + [lines[m]];
      m := m + 1;
    }
    text := Join(collected, "\n");
  }

  // No fence opens a computation.
  ghost predicate NoInline(body: string) {
    NoneBefore(Kinds(Lines(body)), |Lines(body)|)
  }

  // The text of the first fence that opens a computation.
  ghost predicate InlineText(body: string, text: string) {
    exists k: nat ::
      OpensComputation(Kinds(Lines(body)), k) && NoneBefore(Kinds(Lines(body)), k) && Block(Lines(body), k, text)
  }

  // The first fence below a computation heading opens the computation.
  method InlineComputation(body: string) returns (text: Option<string>)
    ensures text.None? <==> NoInline(body)
    ensures text.Some? ==> InlineText(body, text.value)
  {
    var lines := Lines(body);
    ghost var kinds := Kinds(lines);
    var inside := false;
    var i := 0;
    while i < |lines|
      invariant 0 <= i <= |lines|
      invariant inside <==> InSection(kinds, i)
      invariant NoneBefore(kinds, i)
    {
      SectionStep(kinds, i);
      match Kind(lines[i]) {
        case Heading(computation) =>
          inside := computation;
        case Fence(tilde, _, _) =>
          if inside && !tilde {
            assert OpensComputation(kinds, i);
            var block := CollectBlock(lines, i);
            return Some(block);
          }
        case Prose =>
      }
      i := i + 1;
    }
    text := None;
  }

  lemma SectionStep(kinds: seq<LineKind>, i: nat)
    requires i < |kinds|
    ensures InSection(kinds, i + 1) <==> if kinds[i].Heading? then kinds[i].computation else InSection(kinds, i)
  {
    if InSection(kinds, i + 1) {
      var h :| 0 <= h < i + 1 && kinds[h] == Heading(true) && forall j | h < j < i + 1 :: !kinds[j].Heading?;
      assert h == i || InSection(kinds, i);
    }
  }

  // ----- Provenance

  function Spellings(name: string): seq<string> {
    ["@" + name, "${" + name + "}", "$" + name, ":" + name, "{{" + name + "}}", "{" + name + "}"]
  }

  // A sign in front of the name, or the name in one or two pairs of braces.
  ghost predicate WritesName(s: string, name: string) {
    || s == ['@'] + name || s == ['$'] + name || s == [':'] + name
    || s == ['{'] + name + ['}'] || s == ['{', '{'] + name + ['}', '}'] || s == ['$', '{'] + name + ['}']
  }

  // A declared name is written in these six ways and no other.
  lemma SpellingsIff(name: string, s: string)
    ensures s in Spellings(name) <==> WritesName(s, name)
  {
    var all := Spellings(name);
    assert all[0] == ['@'] + name && all[1] == ['$', '{'] + name + ['}'] && all[2] == ['$'] + name;
    assert all[3] == [':'] + name && all[4] == ['{', '{'] + name + ['}', '}'] && all[5] == ['{'] + name + ['}'];
    assert s in all <==>
      s == all[0] || s == all[1] || s == all[2] || s == all[3] || s == all[4] || s == all[5];
  }

  // The canonical form of a spelling, if it occurs.
  function Hit(spelling: string, stored: string): seq<string> {
    var shape := Canonical(spelling);
    if Find(stored, shape).Some? then [shape] else []
  }

  // The declared spellings, canonicalised, that occur in the stored shape.
  function Occurring(spellings: seq<string>, stored: string): seq<string> {
    if spellings == [] then [] else Hit(spellings[0], stored) + Occurring(spellings[1..], stored)
  }

  function Placeholders(parameters: seq<string>, stored: string): seq<string> {
    if parameters == [] then []
    else Occurring(Spellings(parameters[0]), stored) + Placeholders(parameters[1..], stored)
  }

  ghost predicate IsSpelling(parameters: seq<string>, p: string) {
    exists name, s :: name in parameters && s in Spellings(name) && p == Canonical(s)
  }

  lemma {:induction false} FirstCharSurvives(s: string)
    requires s != [] && !IsSpace(s[0]) && s[0] != '-'
    ensures Canonical(s) != ""
  {
    var head := UpTo(s, '\n');
    UpToIsPrefix(s, '\n');
    assert head != [] && head[0] == s[0];
    var line := if |head| == |s| then s else StripReturn(head);
    assert line != [] && line[0] == s[0];
    assert CutComment(line)[0] == s[0];
    assert SplitWords(CutComment(line)) != [];
    assert LineWords(line) != [];
    assert Lines(s)[0] == line;
    LinesWordsClean(Lines(s));
    JoinOfClean(Words(s));
  }

  lemma {:induction false} OccurringHold(spellings: seq<string>, stored: string)
    requires forall s | s in spellings :: s != [] && !IsSpace(s[0]) && s[0] != '-'
    ensures NoneEmpty(Occurring(spellings, stored))
    ensures forall p | p in Occurring(spellings, stored) ::
        Find(stored, p).Some? && exists s :: s in spellings && p == Canonical(s)
  {
    if spellings != [] {
      assert spellings[0] in spellings;
      FirstCharSurvives(spellings[0]);
      assert forall s | s in spellings[1..] :: s in spellings;
      OccurringHold(spellings[1..], stored);
    }
  }

  lemma {:induction false} OccurringAll(spellings: seq<string>, stored: string, s: string)
    requires s in spellings && Find(stored, Canonical(s)).Some?
    ensures Canonical(s) in Occurring(spellings, stored)
  {
    if s != spellings[0] {
      OccurringAll(spellings[1..], stored, s);
    }
  }

  // The placeholders are exactly the declared spellings that occur in the stored shape.
  lemma {:induction false} PlaceholdersAreSpellings(parameters: seq<string>, stored: string)
    ensures NoneEmpty(Placeholders(parameters, stored))
    ensures forall p :: p in Placeholders(parameters, stored) <==>
        IsSpelling(parameters, p) && Find(stored, p).Some?
  {
    if parameters != [] {
      var name := parameters[0];
      OccurringHold(Spellings(name), stored);
      PlaceholdersAreSpellings(parameters[1..], stored);
      forall p | IsSpelling(parameters, p) && Find(stored, p).Some? ensures p in Placeholders(parameters, stored) {
        var n, s :| n in parameters && s in Spellings(n) && p == Canonical(s);
        if n == name {
          OccurringAll(Spellings(name), stored, s);
        } else {
          assert n in parameters[1..];
          assert IsSpelling(parameters[1..], p);
        }
      }
    }
  }

  function Segments(parameters: seq<string>, stored: string): seq<string> {
    PlaceholdersAreSpellings(parameters, stored);
    SplitAll([stored], Placeholders(parameters, stored))
  }

  // Some declared spelling occurs in the stored shape, and the literal segments it
  // leaves occur in the executed shape in order and without overlap.
  ghost predicate HolesMatch(parameters: seq<string>, stored: string, executed: string) {
    && (exists p :: IsSpelling(parameters, p) && Find(stored, p).Some?)
    && Fits(Segments(parameters, stored), executed)
  }

  lemma Associates<T>(a: seq<T>, b: seq<T>, c: seq<T>)
    ensures a + b + c == a + (b + c)
  {
  }

  lemma {:induction false} OccurringSnoc(spellings: seq<string>, s: string, stored: string)
    ensures Occurring(spellings + [s], stored) == Occurring(spellings, stored) + Hit(s, stored)
  {
    if spellings == [] {
      assert [] + [s] == [s] && [s][1..] == [];
    } else {
      assert (spellings + [s])[1..] == spellings[1..] + [s];
      OccurringSnoc(spellings[1..], s, stored);
      Associates(Hit(spellings[0], stored), Occurring(spellings[1..], stored), Hit(s, stored));
    }
  }

  method OccurringSpellings(spellings: seq<string>, stored: string) returns (found: seq<string>)
    ensures found == Occurring(spellings, stored)
  {
    found := [];
    var j := 0;
    while j < |spellings|
      invariant 0 <= j <= |spellings|
      invariant found == Occurring(spellings[..j], stored)
    {
      OccurringSnoc(spellings[..j], spellings[j], stored);
      assert spellings[..j + 1] == spellings[..j] + [spellings[j]];
      var spelling := Canonicalize(spellings[j]);
      if Find(stored, spelling).Some? { found := found + [spelling]; }
      j := j + 1;
    }
    assert spellings[..j] == spellings;
  }

  method MatchesWithParameterHoles(stored: string, executed: string, parameters: seq<string>) returns (ok: bool)
    ensures ok <==> HolesMatch(parameters, stored, executed)
  {
    var placeholders: seq<string> := [];
    var i := 0;
    assert parameters[0..] == parameters;
    while i < |parameters|
      invariant 0 <= i <= |parameters|
      invariant placeholders + Placeholders(parameters[i..], stored) == Placeholders(parameters, stored)
    {
      var found := OccurringSpellings(Spellings(parameters[i]), stored);
      assert parameters[i..][1..] == parameters[i + 1..];
      placeholders := placeholders + found;
      i := i + 1;
    }
    assert placeholders + [] == placeholders;
    PlaceholdersAreSpellings(parameters, stored);
    if placeholders == [] { return false; }
    assert placeholders[0] in placeholders;
    ok := InOrder(SplitAll([stored], placeholders), executed);
  }

  predicate HoldsExecutedText(key: string) {
    key == "executed" || (|key| >= 4 && key[|key| - 4..] == "_sql")
  }

  // The first field that holds the executed text, in key order.
  function ExecutedText(receipt: Receipt): Option<string> {
    if receipt == [] then None
    else if HoldsExecutedText(receipt[0].0) then Some(receipt[0].1)
    else ExecutedText(receipt[1..])
  }

  // The key is `executed` or ends in `_sql`.
  ghost predicate ExecutedKey(key: string) {
    key == "executed" || exists name :: key == name + "_sql"
  }

  // The text is that of the first such field.
  ghost predicate FirstExecuted(receipt: Receipt, text: string) {
    exists i :: 0 <= i < |receipt| && ExecutedKey(receipt[i].0) && receipt[i].1 == text
             && forall j | 0 <= j < i :: !ExecutedKey(receipt[j].0)
  }

  lemma ExecutedKeyIff(key: string)
    ensures HoldsExecutedText(key) <==> ExecutedKey(key)
  {
    if |key| >= 4 && key[|key| - 4..] == "_sql" {
      assert key == key[..|key| - 4] + "_sql";
    }
    if name :| key == name + "_sql" {
      assert key[|key| - 4..] == "_sql";
    }
  }

  lemma {:induction false} ExecutedTextIff(receipt: Receipt, text: string)
    ensures ExecutedText(receipt) == Some(text) <==> FirstExecuted(receipt, text)
  {
    if receipt != [] {
      var rest := receipt[1..];
      ExecutedKeyIff(receipt[0].0);
      ExecutedTextIff(rest, text);
      if ExecutedKey(receipt[0].0) {
        assert receipt[0].1 == text ==> FirstExecuted(receipt, text);
      } else {
        if i :| 0 <= i < |rest| && ExecutedKey(rest[i].0) && rest[i].1 == text
              && forall j | 0 <= j < i :: !ExecutedKey(rest[j].0) {
          assert receipt[i + 1] == rest[i];
        }
        if i :| 0 <= i < |receipt| && ExecutedKey(receipt[i].0) && receipt[i].1 == text
              && forall j | 0 <= j < i :: !ExecutedKey(receipt[j].0) {
          assert rest[i - 1] == receipt[i];
          assert forall j | 0 <= j < i - 1 :: rest[j] == receipt[j + 1];
        }
      }
    }
  }

  function Lookup(receipt: Receipt, key: string): Option<string> {
    if receipt == [] then None
    else if receipt[0].0 == key then Some(receipt[0].1)
    else Lookup(receipt[1..], key)
  }

  ghost predicate Blank(s: string) {
    forall c | c in s :: IsSpace(c)
  }

  lemma {:induction false} TrimStartBlank(s: string)
    ensures TrimStart(s) == "" <==> Blank(s)
    ensures TrimStart(s) != "" ==> !IsSpace(TrimStart(s)[0])
  {
    if s != [] {
      assert s == [s[0]] + s[1..];
      TrimStartBlank(s[1..]);
    }
  }

  lemma {:induction false} TrimEndKeeps(s: string)
    requires s != [] && !IsSpace(s[0])
    ensures TrimEnd(s) != ""
  {
    if |s| > 1 { TrimEndKeeps(s[..|s| - 1]); }
  }

  lemma TrimIsBlank(s: string)
    ensures Trim(s) == "" <==> Blank(s)
  {
    TrimStartBlank(s);
    if TrimStart(s) != "" { TrimEndKeeps(TrimStart(s)); }
  }

  // What makes a run's executed text pass: it differs from the stored text in layout
  // only (case, spacing, trailing comments), or binds the stored text's declared holes.
  ghost predicate Sanctioned(stored: string, parameters: seq<string>, executed: string) {
    || Layout.OnlyLayoutDiffers(stored, executed)
    || (parameters != [] && HolesMatch(parameters, Canonical(stored), Canonical(executed)))
  }

  // There is an executed text, and it is not blank.
  ghost predicate Comparable(receipt: Receipt) {
    exists executed :: FirstExecuted(receipt, executed) && !Blank(executed)
  }

  ghost predicate RanSanctioned(stored: string, parameters: seq<string>, receipt: Receipt) {
    exists executed ::
      FirstExecuted(receipt, executed) && !Blank(executed) && Sanctioned(stored, parameters, executed)
  }

  // The outcome of comparing what ran with what was stored.
  ghost predicate ProvenanceIs(stored: string, parameters: seq<string>, receipt: Receipt, outcome: CheckOutcome) {
    && (outcome == Unavailable <==> !Comparable(receipt))
    && (outcome == Passed <==> RanSanctioned(stored, parameters, receipt))
  }

  lemma FirstExecutedIsOne(receipt: Receipt)
    ensures var field := ExecutedText(receipt);
      if field.None? then !Comparable(receipt)
      else Comparable(receipt) <==> !Blank(field.value)
  {
    forall executed ensures ExecutedText(receipt) == Some(executed) <==> FirstExecuted(receipt, executed) {
      ExecutedTextIff(receipt, executed);
    }
  }

  lemma RanSanctionedIff(stored: string, parameters: seq<string>, receipt: Receipt, executed: string)
    requires ExecutedText(receipt) == Some(executed) && !Blank(executed)
    ensures RanSanctioned(stored, parameters, receipt) <==> Sanctioned(stored, parameters, executed)
  {
    ExecutedTextIff(receipt, executed);
    if RanSanctioned(stored, parameters, receipt) {
      var other :| FirstExecuted(receipt, other) && !Blank(other) && Sanctioned(stored, parameters, other);
      ExecutedTextIff(receipt, other);
    }
  }

  lemma SanctionedIsComparable(stored: string, parameters: seq<string>, receipt: Receipt)
    requires !Comparable(receipt)
    ensures !RanSanctioned(stored, parameters, receipt)
  {
  }

  method ProvenanceCheck(stored: string, contract: Contract, receipt: Receipt) returns (outcome: CheckOutcome)
    ensures ProvenanceIs(stored, contract.parameters, receipt, outcome)
  {
    FirstExecutedIsOne(receipt);
    if !Comparable(receipt) { SanctionedIsComparable(stored, contract.parameters, receipt); }
    var field := ExecutedText(receipt);
    if field.None? { return Unavailable; }
    var executed := field.value;
    TrimIsBlank(executed);
    if Trim(executed) == "" { return Unavailable; }
    RanSanctionedIff(stored, contract.parameters, receipt, executed);
    outcome := Compare(stored, contract, executed);
  }

  // The comparison of an executed text with the stored one.
  method Compare(stored: string, contract: Contract, executed: string) returns (outcome: CheckOutcome)
    ensures outcome == Passed <==> Sanctioned(stored, contract.parameters, executed)
    ensures outcome != Unavailable
  {
    var storedShape := Canonicalize(stored);
    var executedShape := Canonicalize(executed);
    Layout.SameShapeIffOnlyLayoutDiffers(stored, executed);
    if storedShape == executedShape { return Passed; }
    if contract.parameters != [] {
      var holes := MatchesWithParameterHoles(storedShape, executedShape, contract.parameters);
      if holes { return Passed; }
    }
    outcome := Failed;
  }

  predicate HasField(receipt: Receipt, field: string) {
    var value := Lookup(receipt, field);
    value.Some? && Trim(value.value) != ""
  }

  // The receipt has the field, with something in it.
  ghost predicate Carries(receipt: Receipt, field: string) {
    exists i :: 0 <= i < |receipt| && receipt[i].0 == field && !Blank(receipt[i].1)
             && forall j | 0 <= j < i :: receipt[j].0 != field
  }

  lemma {:induction false} HasFieldIff(receipt: Receipt, field: string)
    ensures HasField(receipt, field) <==> Carries(receipt, field)
  {
    if receipt != [] {
      var rest := receipt[1..];
      HasFieldIff(rest, field);
      if receipt[0].0 == field {
        TrimIsBlank(receipt[0].1);
      } else {
        if i :| 0 <= i < |rest| && rest[i].0 == field && !Blank(rest[i].1)
              && forall j | 0 <= j < i :: rest[j].0 != field {
          assert receipt[i + 1] == rest[i];
        }
        if i :| 0 <= i < |receipt| && receipt[i].0 == field && !Blank(receipt[i].1)
              && forall j | 0 <= j < i :: receipt[j].0 != field {
          assert rest[i - 1] == receipt[i];
          assert forall j | 0 <= j < i - 1 :: rest[j] == receipt[j + 1];
        }
      }
    }
  }

  function Missing(fields: seq<string>, receipt: Receipt): (r: seq<string>)
    ensures forall f :: f in r <==> f in fields && !HasField(receipt, f)
  {
    if fields == [] then []
    else (if HasField(receipt, fields[0]) then [] else [fields[0]]) + Missing(fields[1..], receipt)
  }

  ghost function Lacks(receipt: Receipt): string -> bool {
    f => !Carries(receipt, f)
  }

  // Exactly the declared fields that the receipt does not carry, in declared order.
  ghost predicate NamesTheMissing(fields: seq<string>, receipt: Receipt, missing: seq<string>) {
    Keeps(fields, missing, Lacks(receipt))
  }

  lemma {:induction false} MissingHolds(fields: seq<string>, receipt: Receipt)
    ensures NamesTheMissing(fields, receipt, Missing(fields, receipt))
  {
    if fields == [] {
      KeepsNothing(Lacks(receipt));
    } else {
      var (first, rest) := (fields[0], fields[1..]);
      MissingHolds(rest, receipt);
      MissingStep(first, rest, receipt, Missing(rest, receipt));
      assert fields == [first] + rest;
      assert Missing(fields, receipt) == (if HasField(receipt, first) then [] else [first]) + Missing(rest, receipt);
    }
  }

  lemma MissingStep(first: string, rest: seq<string>, receipt: Receipt, missing: seq<string>)
    requires NamesTheMissing(rest, receipt, missing)
    ensures NamesTheMissing([first] + rest, receipt, (if HasField(receipt, first) then [] else [first]) + missing)
  {
    HasFieldIff(receipt, first);
    KeepsOneMore(first, rest, missing, Lacks(receipt));
    assert [] + missing == missing;
  }

  // What is reported of one run: full attestation never, as no fidelity check can be made.
  ghost predicate AttestedAs(contract: Contract, text: string, receipt: Receipt, r: Attested) {
    && NamesTheMissing(contract.receiptFields, receipt, r.missing)
    && ProvenanceIs(text, contract.parameters, receipt, r.provenance)
    && r.fidelity == Unavailable && !r.attested
  }

  method Attest(contract: Contract, text: string, receipt: Receipt) returns (r: Attested)
    ensures AttestedAs(contract, text, receipt, r)
    ensures r.missing == [] <==> forall f | f in contract.receiptFields :: Carries(receipt, f)
  {
    var missing := Missing(contract.receiptFields, receipt);
    MissingHolds(contract.receiptFields, receipt);
    assert missing != [] ==> missing[0] in missing;
    forall f | f in contract.receiptFields ensures f in missing <==> !Carries(receipt, f) {
      HasFieldIff(receipt, f);
    }
    var provenance := ProvenanceCheck(text, contract, receipt);
    var fidelity := Unavailable;
    r := Attested(missing, provenance, fidelity, missing == [] && provenance.Passed? && fidelity.Passed?);
  }

  datatype Resolved = Text(contract: Contract, text: string) | Error(error: ContractError)

  // The text a concept's contract stores: the inline one, or without one the named file.
  // `readFile` answers for the contained file a contract names; None when it escapes
  // the bundle or cannot be read.
  ghost predicate StoredText(concept: Concept, readFile: string -> Option<string>, text: string) {
    && concept.contract.Some? && concept.contract.value.runtime != ""
    && match concept.contract.value.computation
       case None => InlineText(concept.body, text)
       case Some(path) => NoInline(concept.body) && readFile(path) == Some(text)
  }

  // Why a contract cannot be read, for each reason exactly when.
  ghost predicate UnreadableFor(concept: Concept, readFile: string -> Option<string>, error: ContractError) {
    if concept.contract.None? then error == NotAComputation
    else
      var contract := concept.contract.value;
      match error
      case NotAComputation => false
      case MissingRuntime => contract.runtime == ""
      case NoComputation => contract.runtime != "" && contract.computation.None? && NoInline(concept.body)
      case AmbiguousComputation => contract.runtime != "" && contract.computation.Some? && !NoInline(concept.body)
      case UnreadableComputation =>
        && contract.runtime != "" && contract.computation.Some? && NoInline(concept.body)
        && readFile(contract.computation.value).None?
  }

  method ResolveComputation(concept: Concept, readFile: string -> Option<string>) returns (r: Resolved)
    ensures r.Text? ==> concept.contract == Some(r.contract) && StoredText(concept, readFile, r.text)
    ensures r.Error? ==> forall text :: !StoredText(concept, readFile, text)
    ensures r.Error? ==> UnreadableFor(concept, readFile, r.error)
  {
    if concept.contract.None? { return Error(NotAComputation); }
    var contract := concept.contract.value;
    if contract.runtime == "" { return Error(MissingRuntime); }
    var inline := InlineComputation(concept.body);
    match (contract.computation, inline) {
      case (Some(_), Some(_)) => r := Error(AmbiguousComputation);
      case (None, None) => r := Error(NoComputation);
      case (None, Some(text)) => r := Text(contract, text);
      case (Some(path), None) =>
        match readFile(path) {
          case None => r := Error(UnreadableComputation);
          case Some(text) => r := Text(contract, text);
        }
    }
  }

  lemma OneReason(concept: Concept, readFile: string -> Option<string>, a: ContractError, b: ContractError)
    requires UnreadableFor(concept, readFile, a) && UnreadableFor(concept, readFile, b)
    ensures a == b
  {
  }

  lemma StoredHasNoReason(concept: Concept, readFile: string -> Option<string>, text: string, error: ContractError)
    requires StoredText(concept, readFile, text)
    ensures !UnreadableFor(concept, readFile, error)
  {
  }

  // One run's report. A contract that cannot be read is reported with its reason and
  // nothing else. Otherwise the text is the stored one, the attestation is that of the
  // run against it, and provenance is established exactly when no declared field is
  // missing and what ran is sanctioned by the text.
  method AttestRun(concept: Concept, receipt: Receipt, readFile: string -> Option<string>) returns (report: Report)
    ensures forall error :: report.contractError == Some(error) <==> UnreadableFor(concept, readFile, error)
    ensures report.contractError.Some? ==>
      report == Report(None, None, report.contractError, None, ContractUnreadable)
    ensures report.contractError.Some? ==> forall text :: !StoredText(concept, readFile, text)
    ensures report.contractError.None? ==>
      && concept.contract.Some? && report.runtime == Some(concept.contract.value.runtime)
      && report.text.Some? && StoredText(concept, readFile, report.text.value)
      && report.attestation.Some?
      && AttestedAs(concept.contract.value, report.text.value, receipt, report.attestation.value)
      && report.verdict ==
        if (forall f | f in concept.contract.value.receiptFields :: Carries(receipt, f))
           && RanSanctioned(report.text.value, concept.contract.value.parameters, receipt)
        then ProvenanceEstablished else VerdictFailed
  {
    var resolved := ResolveComputation(concept, readFile);
    match resolved {
      case Error(error) =>
        forall other | UnreadableFor(concept, readFile, other) ensures other == error {
          OneReason(concept, readFile, error, other);
        }
        report := Report(None, None, Some(error), None, ContractUnreadable);
      case Text(contract, text) =>
        forall error ensures !UnreadableFor(concept, readFile, error) {
          StoredHasNoReason(concept, readFile, text, error);
        }
        var attestation := Attest(contract, text, receipt);
        report := Report(
          Some(contract.runtime), Some(text), None, Some(attestation),
          if attestation.missing == [] && attestation.provenance.Passed? then ProvenanceEstablished else VerdictFailed);
    }
  }
}
