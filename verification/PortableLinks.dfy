/** The links of a generated projection index: a concept id is percent-encoded for the
    index (RFC 3986, sections 2.1 and 2.3) and read back by the link classifier. A text is
    a list of bytes here, one character for each byte. */
module PortableLinks {
  import opened Options
  import opened StringOrder

  datatype LinkClass = External | NotMarkdown | Link(target: string) | Broken

  predicate AllBytes(text: string) {
    forall k | 0 <= k < |text| :: text[k] as nat < 256
  }

  // ----- Encoding

  predicate Letter(c: char) {
    'a' <= c <= 'z' || 'A' <= c <= 'Z'
  }

  predicate Unreserved(c: char) {
    Letter(c) || '0' <= c <= '9' || c == '-' || c == '_' || c == '.' || c == '~'
  }

  function HexDigit(n: nat): (c: char)
    requires n < 16
    ensures HexValue(c) == Some(n)
  {
    if n < 10 then ('0' as nat + n) as char else ('A' as nat + (n - 10)) as char
  }

  function HexValue(c: char): (v: Option<nat>)
    ensures v.Some? ==> v.value < 16
  {
    if '0' <= c <= '9' then Some(c as nat - '0' as nat)
    else if 'a' <= c <= 'f' then Some(c as nat - 'a' as nat + 10)
    else if 'A' <= c <= 'F' then Some(c as nat - 'A' as nat + 10)
    else None
  }

  function EncodeByte(c: char): string
    requires c as nat < 256
  {
    if Unreserved(c) then [c] else ['%', HexDigit(c as nat / 16), HexDigit(c as nat % 16)]
  }

  function EncodeSegment(segment: string): string
    requires AllBytes(segment)
  {
    if segment == "" then "" else EncodeByte(segment[0]) + EncodeSegment(segment[1..])
  }

  function EncodeSegments(segments: seq<string>): seq<string>
    requires forall i | 0 <= i < |segments| :: AllBytes(segments[i])
  {
    if segments == [] then [] else [EncodeSegment(segments[0])] + EncodeSegments(segments[1..])
  }

  // split('/')
  function Split(text: string): (parts: seq<string>)
    ensures |parts| > 0
  {
    if text == "" then [""]
    else
      var rest := Split(text[1..]);
      if text[0] == '/' then [""] + rest else [[text[0]] + rest[0]] + rest[1..]
  }

  // The same text byte by byte: a slash stays, every other byte is encoded.
  function PathOf(id: string): string
    requires AllBytes(id)
  {
    if id == "" then ""
    else (if id[0] == '/' then "/" else EncodeByte(id[0])) + PathOf(id[1..])
  }

  lemma {:induction false} SplitHolds(text: string)
    ensures Join(Split(text), "/") == text
    ensures forall i | 0 <= i < |Split(text)| :: '/' !in Split(text)[i]
    ensures AllBytes(text) ==> forall i | 0 <= i < |Split(text)| :: AllBytes(Split(text)[i])
  {
    if text != "" {
      SplitHolds(text[1..]);
      var rest := Split(text[1..]);
      assert text == [text[0]] + text[1..];
      if text[0] == '/' {
        assert ([""] + rest)[1..] == rest;
      } else {
        assert Split(text)[1..] == rest[1..];
      }
    }
  }

  lemma {:induction false} JoinedEncodingIsThePath(id: string)
    requires AllBytes(id)
    ensures forall i | 0 <= i < |Split(id)| :: AllBytes(Split(id)[i])
    ensures Join(EncodeSegments(Split(id)), "/") == PathOf(id)
  {
    SplitHolds(id);
    if id != "" {
      JoinedEncodingIsThePath(id[1..]);
      var rest := Split(id[1..]);
      SplitHolds(id[1..]);
      if id[0] == '/' {
        assert Split(id)[1..] == rest;
        assert EncodeSegments(Split(id))[1..] == EncodeSegments(rest);
      } else {
        var first := [id[0]] + rest[0];
        assert first[1..] == rest[0];
        assert Split(id)[1..] == rest[1..];
        assert EncodeSegments(Split(id))[1..] == EncodeSegments(rest)[1..];
      }
    }
  }

  lemma EncodeStep(whole: string, encoded: string, segment: string, k: nat)
    requires AllBytes(segment) && k < |segment|
    requires whole == encoded + EncodeSegment(segment[k..])
    ensures whole == encoded + EncodeByte(segment[k]) + EncodeSegment(segment[k + 1..])
  {
    assert segment[k..][1..] == segment[k + 1..];
  }

  method EncodeBytes(segment: string) returns (encoded: string)
    requires AllBytes(segment)
    ensures encoded == EncodeSegment(segment)
  {
    encoded := "";
    for k := 0 to |segment|
      invariant EncodeSegment(segment) == encoded + EncodeSegment(segment[k..])
    {
      EncodeStep(EncodeSegment(segment), encoded, segment, k);
      encoded := encoded + EncodeByte(segment[k]);
    }
  }

  method EncodeEach(segments: seq<string>) returns (encoded: seq<string>)
    requires forall i | 0 <= i < |segments| :: AllBytes(segments[i])
    ensures encoded == EncodeSegments(segments)
  {
    encoded := [];
    for i := 0 to |segments|
      invariant EncodeSegments(segments) == encoded + EncodeSegments(segments[i..])
    {
      assert segments[i..][1..] == segments[i + 1..];
      var one := EncodeBytes(segments[i]);
      encoded := encoded + [one];
    }
  }

  method PortableConceptPath(id: string) returns (path: string)
    requires AllBytes(id)
    ensures path == PathOf(id) && SpellsOut(path, id)
    ensures Decode(path) == id
  {
    ghost var pieces := PathSpellsOut(id);
    JoinedEncodingIsThePath(id);
    var encoded := EncodeEach(Split(id));
    path := Join(encoded, "/");
    DecodesBack(id, "");
    assert path + "" == path;
  }

  // ----- Decoding

  function Decode(text: string): string {
    if text == "" then ""
    else if text[0] == '%' && |text| > 2 && HexValue(text[1]).Some? && HexValue(text[2]).Some? then
      [(HexValue(text[1]).value * 16 + HexValue(text[2]).value) as char] + Decode(text[3..])
    else [text[0]] + Decode(text[1..])
  }

  predicate EscapeAt(text: string, index: nat) {
    && index + 2 < |text| && text[index] == '%'
    && HexValue(text[index + 1]).Some? && HexValue(text[index + 2]).Some?
  }

  lemma DecodeStep(whole: string, decoded: string, text: string, index: nat)
    requires index < |text| && whole == decoded + Decode(text[index..])
    ensures EscapeAt(text, index) ==>
      whole == decoded + [(HexValue(text[index + 1]).value * 16 + HexValue(text[index + 2]).value) as char]
        + Decode(text[index + 3..])
    ensures !EscapeAt(text, index) ==> whole == decoded + [text[index]] + Decode(text[index + 1..])
  {
    var from := text[index..];
    assert from[1..] == text[index + 1..];
    if EscapeAt(text, index) {
      assert from[3..] == text[index + 3..];
    }
  }

  method PercentDecode(text: string) returns (decoded: string)
    ensures decoded == Decode(text)
  {
    decoded := "";
    var index := 0;
    while index < |text|
      invariant index <= |text| && Decode(text) == decoded + Decode(text[index..])
    {
      DecodeStep(Decode(text), decoded, text, index);
      if EscapeAt(text, index) {
        decoded := decoded + [(HexValue(text[index + 1]).value * 16 + HexValue(text[index + 2]).value) as char];
        index := index + 3;
      } else {
        decoded := decoded + [text[index]];
        index := index + 1;
      }
    }
  }

  lemma DecodesByte(c: char, rest: string)
    requires c as nat < 256
    ensures Decode(EncodeByte(c) + rest) == [c] + Decode(rest)
  {
    var text := EncodeByte(c) + rest;
    if Unreserved(c) {
      assert text[1..] == rest;
    } else {
      assert text[3..] == rest;
      assert c as nat / 16 * 16 + c as nat % 16 == c as nat;
    }
  }

  lemma RestApart(first: string, path: string, rest: string)
    ensures first + path + rest == first + (path + rest)
  {
  }

  lemma FirstApart(s: string, t: string)
    requires s != ""
    ensures [s[0]] + (s[1..] + t) == s + t
  {
  }

  lemma DecodesSlash(rest: string)
    ensures Decode("/" + rest) == "/" + Decode(rest)
  {
    assert ("/" + rest)[1..] == rest;
  }

  // Decoding gives the id back, whatever follows the path.
  lemma {:induction false} DecodesBack(id: string, rest: string)
    requires AllBytes(id)
    ensures Decode(PathOf(id) + rest) == id + Decode(rest)
  {
    if id == "" {
      assert PathOf(id) + rest == rest;
    } else {
      var first := if id[0] == '/' then "/" else EncodeByte(id[0]);
      var after := PathOf(id[1..]) + rest;
      RestApart(first, PathOf(id[1..]), rest);
      DecodesBack(id[1..], rest);
      if id[0] == '/' { DecodesSlash(after); } else { DecodesByte(id[0], after); }
      FirstApart(id, Decode(rest));
    }
  }

  // The path needs no further quoting: it holds unreserved bytes, slashes and escapes only.
  lemma {:induction false} PathIsPortable(id: string)
    requires AllBytes(id)
    ensures forall k | 0 <= k < |PathOf(id)| ::
      Unreserved(PathOf(id)[k]) || PathOf(id)[k] == '/' || PathOf(id)[k] == '%'
  {
    if id != "" {
      PathIsPortable(id[1..]);
    }
  }

  // ----- The encoding, byte by byte

  // A slash, a letter, a digit, or one of `-`, `.`, `_` and `~`.
  ghost predicate StaysPlain(c: char) {
    var n := c as int;
    n == 47 || 65 <= n <= 90 || 97 <= n <= 122 || 48 <= n <= 57 || n == 45 || n == 46 || n == 95 || n == 126
  }

  // The digit of n, in upper case.
  ghost predicate IsUpperHex(c: char, n: nat) {
    (n < 10 && c as int == 48 + n) || (10 <= n < 16 && c as int == 55 + n)
  }

  // What stands in the path for one byte: the byte, or `%` and its two digits.
  ghost predicate StandsFor(piece: string, c: char) {
    if StaysPlain(c) then piece == [c]
    else |piece| == 3 && piece[0] == '%' && IsUpperHex(piece[1], c as nat / 16) && IsUpperHex(piece[2], c as nat % 16)
  }

  // The path is one piece after the other, one for each byte of the id.
  ghost predicate SpellsOut(path: string, id: string) {
    exists pieces :: PiecesOf(pieces, id) && path == Join(pieces, "")
  }

  ghost predicate PiecesOf(pieces: seq<string>, id: string) {
    |pieces| == |id| && forall k | 0 <= k < |id| :: StandsFor(pieces[k], id[k])
  }

  lemma JoinedBehind(piece: string, pieces: seq<string>)
    ensures Join([piece] + pieces, "") == piece + Join(pieces, "")
  {
    assert ([piece] + pieces)[1..] == pieces;
    assert piece + "" == piece;
  }

  lemma EncodedStandsFor(c: char)
    requires c as nat < 256
    ensures StandsFor(if c == '/' then "/" else EncodeByte(c), c)
  {
  }

  lemma {:induction false} PathSpellsOut(id: string) returns (pieces: seq<string>)
    requires AllBytes(id)
    ensures PiecesOf(pieces, id) && PathOf(id) == Join(pieces, "")
  {
    if id == "" {
      pieces := [];
    } else {
      var first := if id[0] == '/' then "/" else EncodeByte(id[0]);
      var rest := PathSpellsOut(id[1..]);
      EncodedStandsFor(id[0]);
      JoinedBehind(first, rest);
      pieces := [first] + rest;
    }
  }

  // A digit of either case.
  lemma HexValueIff(c: char, n: nat)
    ensures HexValue(c) == Some(n) <==> IsUpperHex(c, n) || (10 <= n < 16 && c as int == 87 + n)
  {
  }

  // ----- Resolving a link

  predicate EndsWithMd(text: string) {
    && |text| >= 3 && text[|text| - 3] == '.'
    && (text[|text| - 2] == 'm' || text[|text| - 2] == 'M')
    && (text[|text| - 1] == 'd' || text[|text| - 1] == 'D')
  }

  // A dot and the two letters, in either case, stand at the end.
  lemma EndsWithMdIff(text: string)
    ensures EndsWithMd(text) <==> exists path, m, d :: text == path + ['.', m, d] && IsMd(m, d)
  {
    if EndsWithMd(text) {
      var n := |text| - 3;
      assert text == text[..n] + ['.', text[n + 1], text[n + 2]] && IsMd(text[n + 1], text[n + 2]);
    }
  }

  ghost predicate IsMd(m: char, d: char) {
    (m as int == 77 || m as int == 109) && (d as int == 68 || d as int == 100)
  }

  function DropMd(path: string): string {
    if EndsWithMd(path) then path[..|path| - 3] else path
  }

  // A name followed by a colon, letters only.
  predicate IsExternal(href: string) {
    var scheme := UpTo(href, ':');
    |scheme| < |href| && scheme != "" && forall k | 0 <= k < |scheme| :: Letter(scheme[k])
  }

  ghost predicate HasScheme(href: string) {
    exists i :: 0 < i < |href| && href[i] == ':' && AsciiLetters(href, i)
  }

  ghost predicate AsciiLetters(text: string, n: nat)
    requires n <= |text|
  {
    forall k | 0 <= k < n :: 65 <= text[k] as int <= 90 || 97 <= text[k] as int <= 122
  }

  lemma {:induction false} UpToColon(href: string)
    ensures var n := |UpTo(href, ':')|;
      && n <= |href| && UpTo(href, ':') == href[..n] && (n < |href| ==> href[n] == ':')
      && forall k | 0 <= k < n :: href[k] != ':'
  {
    if href != "" && href[0] != ':' {
      UpToColon(href[1..]);
      var n := |UpTo(href[1..], ':')|;
      forall k | 0 <= k < n + 1 ensures href[k] != ':' {
        if k > 0 { assert href[k] == href[1..][k - 1]; }
      }
    }
  }

  lemma IsExternalIff(href: string)
    ensures IsExternal(href) <==> HasScheme(href)
  {
    UpToColon(href);
    var n := |UpTo(href, ':')|;
    if HasScheme(href) {
      var i :| 0 < i < |href| && href[i] == ':' && AsciiLetters(href, i);
      assert n <= i;
      assert !(n < i);
    }
  }

  predicate Normal(segment: string) {
    segment != "" && segment != "." && segment != ".."
  }

  // None when `..` would leave the bundle root.
  function Pushed(segments: seq<string>, path: seq<string>): Option<seq<string>>
    decreases |path|
  {
    if path == [] then Some(segments)
    else if path[0] == "" || path[0] == "." then Pushed(segments, path[1..])
    else if path[0] == ".." then
      if segments == [] then None else Pushed(segments[..|segments| - 1], path[1..])
    else Pushed(segments + [path[0]], path[1..])
  }

  // How many levels a list of segments leads down.
  function Descent(path: seq<string>): int {
    if path == [] then 0
    else (if Normal(path[0]) then 1 else if path[0] == ".." then -1 else 0) + Descent(path[1..])
  }

  // Some beginning of the path leads further up than the directory is deep.
  ghost predicate LeavesRoot(depth: nat, path: seq<string>) {
    exists n :: 0 <= n <= |path| && depth + Descent(path[..n]) < 0
  }

  lemma {:induction false} PushedFailsIff(segments: seq<string>, path: seq<string>)
    ensures Pushed(segments, path).None? <==> LeavesRoot(|segments|, path)
    ensures Pushed(segments, path).Some? ==> |Pushed(segments, path).value| == |segments| + Descent(path)
    decreases |path|
  {
    assert Descent(path[..0]) == 0;
    if path != [] {
      var rest := path[1..];
      forall n | 1 <= n <= |path| ensures Descent(path[..n]) == Descent([path[0]]) + Descent(rest[..n - 1]) {
        DescentOfFirst(path, n);
      }
      var next := if path[0] == ".." && segments != [] then segments[..|segments| - 1]
                  else if Normal(path[0]) then segments + [path[0]] else segments;
      PushedFailsIff(next, rest);
      LeavesLater(|segments|, path);
    }
  }

  lemma DescentOfFirst(path: seq<string>, n: nat)
    requires 1 <= n <= |path|
    ensures Descent(path[..n]) == Descent([path[0]]) + Descent(path[1..][..n - 1])
  {
    assert path[..n][1..] == path[1..][..n - 1] && path[..n][0] == path[0];
    assert [path[0]][1..] == [];
  }

  lemma LeavesLater(depth: nat, path: seq<string>)
    requires path != []
    ensures LeavesRoot(depth, path) <==>
      depth + Descent([path[0]]) < 0 || LeavesRoot(depth + Descent([path[0]]), path[1..])
  {
    var d := Descent([path[0]]);
    assert [path[0]][1..] == [] && path[..0] == [] && path[1..][..0] == [];
    if LeavesRoot(depth, path) {
      var n :| 0 <= n <= |path| && depth + Descent(path[..n]) < 0;
      DescentOfFirst(path, n);
    }
    if depth + d < 0 { DescentOfFirst(path, 1); }
    if depth + d >= 0 && LeavesRoot(depth + d, path[1..]) {
      var n :| 0 <= n <= |path[1..]| && depth + d + Descent(path[1..][..n]) < 0;
      DescentOfFirst(path, n + 1);
    }
  }

  // A segment and the `..` behind it cancel, anywhere in the path.
  lemma {:induction false} PushedCancels(segments: seq<string>, before: seq<string>, x: string, after: seq<string>)
    requires Normal(x)
    ensures Pushed(segments, before + [x, ".."] + after) == Pushed(segments, before + after)
    decreases |before|
  {
    var path := before + [x, ".."] + after;
    if before == [] {
      assert path[0] == x && path[1..][0] == ".." && path[1..][1..] == after;
      assert before + after == after && (segments + [x])[..|segments|] == segments;
    } else {
      assert path[1..] == before[1..] + [x, ".."] + after && (before + after)[1..] == before[1..] + after;
      if before[0] == ".." {
        if segments != [] { PushedCancels(segments[..|segments| - 1], before[1..], x, after); }
      } else {
        PushedCancels(if Normal(before[0]) then segments + [before[0]] else segments, before[1..], x, after);
      }
    }
  }

  // An empty segment and `.` change nothing, anywhere in the path.
  lemma {:induction false} PushedIgnores(segments: seq<string>, before: seq<string>, x: string, after: seq<string>)
    requires x == "" || x == "."
    ensures Pushed(segments, before + [x] + after) == Pushed(segments, before + after)
    decreases |before|
  {
    var path := before + [x] + after;
    if before == [] {
      assert path[0] == x && path[1..] == after && before + after == after;
    } else {
      assert path[1..] == before[1..] + [x] + after && (before + after)[1..] == before[1..] + after;
      if before[0] == ".." {
        if segments != [] { PushedIgnores(segments[..|segments| - 1], before[1..], x, after); }
      } else {
        PushedIgnores(if Normal(before[0]) then segments + [before[0]] else segments, before[1..], x, after);
      }
    }
  }

  // Fails exactly when some beginning of the path leads out of the root; otherwise the
  // result is as deep as the path leads.
  method PushNormalized(segments: seq<string>, path: string) returns (r: Option<seq<string>>)
    ensures r == Pushed(segments, Split(path))
    ensures r.None? <==> LeavesRoot(|segments|, Split(path))
    ensures r.Some? ==> |r.value| == |segments| + Descent(Split(path))
  {
    PushedFailsIff(segments, Split(path));
    var parts := Split(path);
    var all := segments;
    for i := 0 to |parts|
      invariant Pushed(all, parts[i..]) == Pushed(segments, parts)
    {
      assert parts[i..][1..] == parts[i + 1..];
      if parts[i] == "" || parts[i] == "." {
      } else if parts[i] == ".." {
        if all == [] { return None; }
        all := all[..|all| - 1];
      } else {
        all := all + [parts[i]];
      }
    }
    r := Some(all);
  }

  // The segments of the directory a concept is in.
  function DirectoryOf(conceptId: string): seq<string> {
    var parts := Split(conceptId);
    if parts[..|parts| - 1] == [""] then [] else parts[..|parts| - 1]
  }

  function ResolveDecoded(href: string, conceptId: string): Option<string> {
    var segments :=
      if href != "" && href[0] == '/' then Pushed([], Split(href[1..]))
      else Pushed(DirectoryOf(conceptId), Split(href));
    if segments.None? then None else Some(DropMd(Join(segments.value, "/")))
  }

  // What the classifier makes of one destination in a concept.
  function Classify(href: string, conceptId: string, ids: set<string>): LinkClass {
    if IsExternal(href) then External
    else
      var decoded := Decode(UpTo(href, '#'));
      if IsExternal(decoded) then External
      else if !EndsWithMd(decoded) then NotMarkdown
      else
        var target := ResolveDecoded(decoded, conceptId);
        if target.Some? && target.value in ids then Link(target.value) else Broken
  }

  // No `.`, `..` or empty segment before the last one.
  ghost predicate NormalBeforeLast(id: string) {
    forall i | 0 <= i < |Split(id)| - 1 :: Normal(Split(id)[i])
  }

  // ----- A link of the index finds its concept

  lemma {:induction false} UpToOfSum(s: string, t: string, c: char)
    ensures c in s ==> UpTo(s + t, c) == UpTo(s, c) && |UpTo(s, c)| < |s|
    ensures c !in s ==> UpTo(s + t, c) == s + UpTo(t, c)
  {
    if s == "" {
      assert s + t == t;
    } else {
      assert (s + t)[1..] == s[1..] + t;
      UpToOfSum(s[1..], t, c);
    }
  }

  // Adding the extension to a text without one colon more changes nothing for the scheme.
  lemma ExternalWithExtension(s: string, t: string)
    requires ':' !in t
    ensures IsExternal(s + t) <==> IsExternal(s)
  {
    UpToOfSum(s, t, ':');
    UpToOfSum(s, "", ':');
    assert s + "" == s;
    UpToOfSum(t, "", ':');
    assert t + "" == t;
  }

  // The same parts with a text added to the last.
  function Extended(parts: seq<string>, t: string): seq<string>
    requires parts != []
  {
    parts[|parts| - 1 := parts[|parts| - 1] + t]
  }

  lemma ExtendedStep(c: char, rest: seq<string>, t: string)
    requires rest != []
    ensures Extended([""] + rest, t) == [""] + Extended(rest, t)
    ensures Extended([[c] + rest[0]] + rest[1..], t) == [[c] + Extended(rest, t)[0]] + Extended(rest, t)[1..]
  {
    if |rest| == 1 {
      assert [c] + rest[0] + t == [c] + (rest[0] + t);
    }
  }

  lemma {:induction false} SplitOfNoSlash(t: string)
    requires '/' !in t
    ensures Split(t) == [t]
  {
    if t != "" {
      SplitOfNoSlash(t[1..]);
      assert [t[0]] + t[1..] == t;
    }
  }

  lemma {:induction false} SplitOfSum(s: string, t: string)
    requires '/' !in t
    ensures Split(s + t) == Extended(Split(s), t)
  {
    if s == "" {
      assert s + t == t;
      SplitOfNoSlash(t);
    } else {
      assert (s + t)[1..] == s[1..] + t;
      SplitOfSum(s[1..], t);
      ExtendedStep(s[0], Split(s[1..]), t);
    }
  }

  // Splitting undoes joining.
  lemma {:induction false} SplitOfJoin(parts: seq<string>)
    requires parts != [] && forall i | 0 <= i < |parts| :: '/' !in parts[i]
    ensures Split(Join(parts, "/")) == parts
  {
    SplitHolds(Join(parts, "/"));
    JoinInjective(Split(Join(parts, "/")), parts, '/');
  }

  ghost predicate AllNormal(segments: seq<string>) {
    forall i | 0 <= i < |segments| :: Normal(segments[i]) && '/' !in segments[i]
  }

  lemma {:induction false} PushedNormal(segments: seq<string>, path: seq<string>)
    requires AllNormal(path)
    ensures Pushed(segments, path) == Some(segments + path)
    decreases |path|
  {
    if path != [] {
      PushedNormal(segments + [path[0]], path[1..]);
      assert segments + [path[0]] + path[1..] == segments + path;
    } else {
      assert segments + path == segments;
    }
  }

  // What was pushed is normal, and a normal last segment stays last.
  lemma {:induction false} PushedIsNormal(segments: seq<string>, path: seq<string>)
    requires AllNormal(segments) && forall i | 0 <= i < |path| :: '/' !in path[i]
    requires path != [] && Normal(path[|path| - 1])
    requires Pushed(segments, path).Some?
    ensures var r := Pushed(segments, path).value;
      r != [] && AllNormal(r) && r[|r| - 1] == path[|path| - 1]
    decreases |path|
  {
    if |path| == 1 {
      assert path[1..] == [];
    } else if path[0] == "" || path[0] == "." {
      PushedIsNormal(segments, path[1..]);
    } else if path[0] == ".." {
      PushedIsNormal(segments[..|segments| - 1], path[1..]);
    } else {
      PushedIsNormal(segments + [path[0]], path[1..]);
    }
  }

  // Joining with the last part extended extends the text, and dropping the extension undoes it.
  lemma {:induction false} JoinOfExtended(parts: seq<string>, t: string)
    requires parts != []
    ensures Join(Extended(parts, t), "/") == Join(parts, "/") + t
  {
    if |parts| > 1 {
      JoinOfExtended(parts[1..], t);
      assert Extended(parts, t)[1..] == Extended(parts[1..], t);
      assert parts[0] + "/" + (Join(parts[1..], "/") + t) == parts[0] + "/" + Join(parts[1..], "/") + t;
    }
  }

  const MD := ".md"

  lemma DropsExtension(path: string)
    ensures EndsWithMd(path + MD) && DropMd(path + MD) == path
  {
  }

  // A name with the extension is a normal segment.
  lemma NormalWithExtension(name: string)
    requires '/' !in name
    ensures Normal(name + MD) && '/' !in name + MD
  {
    assert |name + MD| >= 3;
  }

  // The segments the resolver pushes for a decoded link at the root of the bundle.
  function LinkSegments(href: string): seq<string> {
    if href != "" && href[0] == '/' then Split(href[1..]) else Split(href)
  }

  lemma LastOfLinkSegments(id: string)
    ensures var path := LinkSegments(id + MD);
      && path != [] && path[|path| - 1] == Split(id)[|Split(id)| - 1] + MD
      && forall i | 0 <= i < |path| :: '/' !in path[i]
  {
    SplitOfSum(id, MD);
    SplitHolds(id + MD);
    var href := id + MD;
    if href[0] == '/' {
      assert Split(href)[1..] == Split(href[1..]);
      SplitHolds(href[1..]);
    }
  }

  lemma ResolvesNormal(id: string)
    requires NormalBeforeLast(id)
    ensures Pushed([], LinkSegments(id + MD)) == Some(Split(id + MD))
  {
    var href := id + MD;
    SplitOfSum(id, MD);
    SplitHolds(href);
    SplitHolds(id);
    NormalWithExtension(Split(id)[|Split(id)| - 1]);
    assert id == "" || id[0] != '/';
    assert LinkSegments(href) == Split(href);
    PushedNormal([], Split(href));
    assert [] + Split(href) == Split(href);
  }

  lemma ResolvedIsNormal(id: string)
    requires Pushed([], LinkSegments(id + MD)).Some?
    requires Join(Pushed([], LinkSegments(id + MD)).value, "/") == id + MD
    ensures NormalBeforeLast(id)
  {
    var path := LinkSegments(id + MD);
    var last := Split(id)[|Split(id)| - 1];
    SplitHolds(id);
    LastOfLinkSegments(id);
    NormalWithExtension(last);
    PushedIsNormal([], path);
    SplitOfJoin(Pushed([], path).value);
    SplitOfSum(id, MD);
    forall i | 0 <= i < |Split(id)| - 1 ensures Normal(Split(id)[i]) {
      assert Split(id)[i] == Split(id + MD)[i];
    }
  }

  // Resolved from the root of the bundle, the decoded link gives the id back just when no
  // segment before the last is empty, `.` or `..`.
  lemma ResolvesIffNormal(id: string, source: string)
    requires '/' !in source
    ensures ResolveDecoded(id + MD, source) == Some(id) <==> NormalBeforeLast(id)
  {
    var pushed := Pushed([], LinkSegments(id + MD));
    SplitOfNoSlash(source);
    assert DirectoryOf(source) == [];
    DropsExtension(id);
    SplitHolds(id + MD);
    if NormalBeforeLast(id) {
      ResolvesNormal(id);
    }
    if ResolveDecoded(id + MD, source) == Some(id) {
      JoinEndsWithExtension(id);
      ResolvedIsNormal(id);
    }
  }

  // What the resolver joins ends with the extension it then drops.
  lemma JoinEndsWithExtension(id: string)
    requires Pushed([], LinkSegments(id + MD)).Some?
    ensures var joined := Join(Pushed([], LinkSegments(id + MD)).value, "/");
      joined == DropMd(joined) + MD
  {
    var path := LinkSegments(id + MD);
    var last := Split(id)[|Split(id)| - 1];
    SplitHolds(id);
    LastOfLinkSegments(id);
    NormalWithExtension(last);
    PushedIsNormal([], path);
    var all := Pushed([], path).value;
    var short := all[|all| - 1 := last];
    assert Extended(short, MD) == all;
    JoinOfExtended(short, MD);
    DropsExtension(Join(short, "/"));
  }

  lemma {:induction false} PathHasNo(id: string, c: char)
    requires AllBytes(id) && c != '/' && c != '%' && !Unreserved(c)
    ensures c !in PathOf(id)
  {
    PathIsPortable(id);
  }

  lemma DecodesMd()
    ensures Decode(MD) == MD
  {
    assert Decode("md"[1..]) == "d";
    assert Decode(".md"[1..]) == "md";
  }

  // The classifier reads the link as the id with the extension.
  lemma IndexLinkDecodes(id: string)
    requires AllBytes(id)
    ensures !IsExternal(PathOf(id) + MD) && Decode(UpTo(PathOf(id) + MD, '#')) == id + MD
  {
    var href := PathOf(id) + MD;
    PathHasNo(id, ':');
    PathHasNo(id, '#');
    UpToOfSum(href, "", ':');
    UpToOfSum(href, "", '#');
    assert href + "" == href;
    DecodesBack(id, MD);
    DecodesMd();
  }

  // The link the index holds for a concept leads to that concept exactly when the id is in
  // the bundle, is no external address, and has only normal segments before its last.
  lemma IndexLinkFindsConcept(id: string, source: string, ids: set<string>)
    requires AllBytes(id) && '/' !in source
    ensures Classify(PathOf(id) + MD, source, ids) == Link(id)
      <==> id in ids && !IsExternal(id) && NormalBeforeLast(id)
  {
    IndexLinkDecodes(id);
    ExternalWithExtension(id, MD);
    DropsExtension(id);
    ResolvesIffNormal(id, source);
  }

  // An id that reads like an address: its link is taken for an external one.
  lemma NoteIsExternal(source: string, ids: set<string>)
    ensures Classify(PathOf("note:x") + MD, source, ids) == External
  {
    IndexLinkDecodes("note:x");
    UpToStops("note", ':', ":x");
    assert "note" + ":x" == "note:x";
    ExternalWithExtension("note:x", MD);
  }
}
