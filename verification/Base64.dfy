/** The data-URL encoder for images, against a decoder of its own for RFC 4648, section 4. */
module Base64 {
  import opened Options

  type Byte = b: nat | b < 256

  const UPPER := "ABCDEFGHIJKLMNOPQRSTUVWXYZ"
  const LOWER := "abcdefghijklmnopqrstuvwxyz"
  const OTHERS := "0123456789+/"
  const TABLE: string := UPPER + LOWER + OTHERS

  // ----- Decoding: the value of a character, by the ranges of the alphabet

  function Value(c: char): (v: Option<nat>)
    ensures v.Some? ==> v.value < 64
  {
    if 'A' <= c <= 'Z' then Some(c as nat - 'A' as nat)
    else if 'a' <= c <= 'z' then Some(c as nat - 'a' as nat + 26)
    else if '0' <= c <= '9' then Some(c as nat - '0' as nat + 52)
    else if c == '+' then Some(62)
    else if c == '/' then Some(63)
    else None
  }

  // A group of four digits holds three bytes; one that ends in padding holds two or one,
  // and its unused bits are zero.
  function DecodeGroup(a: char, b: char, c: char, d: char, last: bool): Option<seq<Byte>> {
    if Value(a).None? || Value(b).None? then None
    else
      var (va, vb) := (Value(a).value, Value(b).value);
      if last && d == '=' then
        if c == '=' then FromTwo(va, vb)
        else if Value(c).None? then None else FromThree(va, vb, Value(c).value)
      else if Value(c).None? || Value(d).None? then None
      else Some([va * 4 + vb / 16, vb % 16 * 16 + Value(c).value / 4, Value(c).value % 4 * 64 + Value(d).value])
  }

  function FromTwo(va: nat, vb: nat): Option<seq<Byte>>
    requires va < 64 && vb < 64
  {
    if vb % 16 != 0 then None else Some([va * 4 + vb / 16])
  }

  function FromThree(va: nat, vb: nat, vc: nat): Option<seq<Byte>>
    requires va < 64 && vb < 64 && vc < 64
  {
    if vc % 4 != 0 then None else Some([va * 4 + vb / 16, vb % 16 * 16 + vc / 4])
  }

  function Decode(text: string): Option<seq<Byte>> {
    if text == "" then Some([])
    else if |text| < 4 then None
    else
      var group := DecodeGroup(text[0], text[1], text[2], text[3], |text| == 4);
      var rest := Decode(text[4..]);
      if group.None? || rest.None? then None else Some(group.value + rest.value)
  }

  // ----- Encoding

  // Table 1 of RFC 4648.
  function Digit(i: nat): (c: char)
    requires i < 64
    ensures Value(c) == Some(i) && c != '='
  {
    if i < 26 then ('A' as nat + i) as char
    else if i < 52 then ('a' as nat + (i - 26)) as char
    else if i < 62 then ('0' as nat + (i - 52)) as char
    else if i == 62 then '+'
    else '/'
  }

  lemma UpperHolds(k: nat)
    requires k < 26
    ensures |UPPER| == 26 && UPPER[k] == Digit(k)
  {
    assert k == 0 || k == 1 || k == 2 || k == 3 || k == 4 || k == 5 || k == 6 || k == 7 || k == 8
      || k == 9 || k == 10 || k == 11 || k == 12 || k == 13 || k == 14 || k == 15 || k == 16 || k == 17
      || k == 18 || k == 19 || k == 20 || k == 21 || k == 22 || k == 23 || k == 24 || k == 25;
  }

  lemma LowerHolds(k: nat)
    requires k < 26
    ensures |LOWER| == 26 && LOWER[k] == Digit(k + 26)
  {
    assert k == 0 || k == 1 || k == 2 || k == 3 || k == 4 || k == 5 || k == 6 || k == 7 || k == 8
      || k == 9 || k == 10 || k == 11 || k == 12 || k == 13 || k == 14 || k == 15 || k == 16 || k == 17
      || k == 18 || k == 19 || k == 20 || k == 21 || k == 22 || k == 23 || k == 24 || k == 25;
  }

  lemma OthersHold(k: nat)
    requires k < 12
    ensures |OTHERS| == 12 && OTHERS[k] == Digit(k + 52)
  {
    assert k == 0 || k == 1 || k == 2 || k == 3 || k == 4 || k == 5 || k == 6 || k == 7 || k == 8
      || k == 9 || k == 10 || k == 11;
  }

  lemma ConcatenationHolds(upper: string, lower: string, others: string, i: nat)
    requires |upper| == 26 && forall k: nat | k < 26 :: upper[k] == Digit(k)
    requires |lower| == 26 && forall k: nat | k < 26 :: lower[k] == Digit(k + 26)
    requires |others| == 12 && forall k: nat | k < 12 :: others[k] == Digit(k + 52)
    requires i < 64
    ensures var table := upper + lower + others; |table| == 64 && table[i] == Digit(i)
  {
    if i < 26 {
      assert upper[i] == Digit(i);
    } else if i < 52 {
      assert lower[i - 26] == Digit(i);
    } else {
      assert others[i - 52] == Digit(i);
    }
  }

  lemma TableHolds(i: nat)
    requires i < 64
    ensures |TABLE| == 64 && TABLE[i] == Digit(i)
  {
    UpperHolds(0);
    LowerHolds(0);
    OthersHold(0);
    forall k: nat | k < 26 ensures UPPER[k] == Digit(k) {
      UpperHolds(k);
    }
    forall k: nat | k < 26 ensures LOWER[k] == Digit(k + 26) {
      LowerHolds(k);
    }
    forall k: nat | k < 12 ensures OTHERS[k] == Digit(k + 52) {
      OthersHold(k);
    }
    ConcatenationHolds(UPPER, LOWER, OTHERS, i);
  }

  // The 24 bits of up to three bytes as four digits of six bits.
  function Group(chunk: seq<Byte>): (out: string)
    requires 1 <= |chunk| <= 3
    ensures |out| == 4
  {
    var b0: nat := chunk[0];
    var b1: nat := if |chunk| > 1 then chunk[1] else 0;
    var b2: nat := if |chunk| > 2 then chunk[2] else 0;
    [Digit(b0 / 4), Digit(b0 % 4 * 16 + b1 / 16),
     if |chunk| > 1 then Digit(b1 % 16 * 4 + b2 / 64) else '=',
     if |chunk| > 2 then Digit(b2 % 64) else '=']
  }

  function Next(data: seq<Byte>): nat {
    if |data| < 3 then |data| else 3
  }

  lemma SplitsAtNext(data: seq<Byte>)
    ensures data[..Next(data)] + data[Next(data)..] == data
  {
  }

  function Encode(data: seq<Byte>): string {
    if data == [] then "" else Group(data[..Next(data)]) + Encode(data[Next(data)..])
  }

  lemma DigitsOfSum(d0: nat, d1: nat, d2: nat, d3: nat)
    requires d0 < 64 && d1 < 64 && d2 < 64 && d3 < 64
    ensures var n := d0 * 262144 + d1 * 4096 + d2 * 64 + d3;
      n / 262144 % 64 == d0 && n / 4096 % 64 == d1 && n / 64 % 64 == d2 && n % 64 == d3
  {
    var n := d0 * 262144 + d1 * 4096 + d2 * 64 + d3;
    assert n / 262144 == d0;
    assert n / 4096 == d0 * 64 + d1;
    assert n / 64 == d0 * 4096 + d1 * 64 + d2;
  }

  // The four digits of three bytes.
  lemma DigitsOf(b0: nat, b1: nat, b2: nat)
    requires b0 < 256 && b1 < 256 && b2 < 256
    ensures var n := b0 * 65536 + b1 * 256 + b2;
      && n / 262144 % 64 == b0 / 4
      && n / 4096 % 64 == b0 % 4 * 16 + b1 / 16
      && n / 64 % 64 == b1 % 16 * 4 + b2 / 64
      && n % 64 == b2 % 64
  {
    DigitsOfSum(b0 / 4, b0 % 4 * 16 + b1 / 16, b1 % 16 * 4 + b2 / 64, b2 % 64);
  }

  // The values of the four characters are the digits of the bytes.
  ghost predicate Spells(g: string, chunk: seq<Byte>) {
    && |g| == 4 && 1 <= |chunk| <= 3
    && var b0: nat := chunk[0];
       var b1: nat := if |chunk| > 1 then chunk[1] else 0;
       var b2: nat := if |chunk| > 2 then chunk[2] else 0;
       && Value(g[0]) == Some(b0 / 4)
       && Value(g[1]) == Some(b0 % 4 * 16 + b1 / 16)
       && (if |chunk| > 1 then Value(g[2]) == Some(b1 % 16 * 4 + b2 / 64) else g[2] == '=')
       && (if |chunk| > 2 then Value(g[3]) == Some(b2 % 64) else g[3] == '=')
  }

  // Putting the digits of the bytes together gives the bytes back.
  lemma BytesAgain(b0: nat, b1: nat, b2: nat)
    requires b0 < 256 && b1 < 256 && b2 < 256
    ensures b0 / 4 * 4 + (b0 % 4 * 16 + b1 / 16) / 16 == b0
    ensures (b0 % 4 * 16 + b1 / 16) % 16 * 16 + (b1 % 16 * 4 + b2 / 64) / 4 == b1
    ensures (b1 % 16 * 4 + b2 / 64) % 4 * 64 + b2 % 64 == b2
  {
  }

  lemma SpelledDecodes(g: string, chunk: seq<Byte>, last: bool)
    requires Spells(g, chunk) && (|chunk| < 3 ==> last)
    ensures DecodeGroup(g[0], g[1], g[2], g[3], last) == Some(chunk)
  {
    BytesAgain(chunk[0], if |chunk| > 1 then chunk[1] else 0, if |chunk| > 2 then chunk[2] else 0);
    if |chunk| == 1 {
      assert chunk == [chunk[0]];
    } else if |chunk| == 2 {
      assert chunk == [chunk[0], chunk[1]];
    } else {
      assert chunk == [chunk[0], chunk[1], chunk[2]];
    }
  }

  // Taking the digits of the bytes that were put together gives the values back.
  lemma DigitsAgain(va: nat, vb: nat, vc: nat, vd: nat)
    requires va < 64 && vb < 64 && vc < 64 && vd < 64
    ensures (va * 4 + vb / 16) / 4 == va
    ensures (va * 4 + vb / 16) % 4 * 16 + (vb % 16 * 16 + vc / 4) / 16 == vb
    ensures vb % 16 == 0 ==> (va * 4 + vb / 16) % 4 * 16 == vb
    ensures (vb % 16 * 16 + vc / 4) % 16 * 4 + (vc % 4 * 64 + vd) / 64 == vc
    ensures vc % 4 == 0 ==> (vb % 16 * 16 + vc / 4) % 16 * 4 == vc
    ensures (vc % 4 * 64 + vd) % 64 == vd
  {
  }

  lemma DecodedIsSpelled(g: string, chunk: seq<Byte>, last: bool)
    requires |g| == 4 && DecodeGroup(g[0], g[1], g[2], g[3], last) == Some(chunk)
    ensures Spells(g, chunk) && (|chunk| < 3 ==> last)
  {
    var (vc, vd) := (Value(g[2]), Value(g[3]));
    DigitsAgain(Value(g[0]).value, Value(g[1]).value,
                if vc.Some? then vc.value else 0, if vd.Some? then vd.value else 0);
  }

  lemma GroupSpells(chunk: seq<Byte>)
    requires 1 <= |chunk| <= 3
    ensures Spells(Group(chunk), chunk)
  {
  }

  lemma SpellingIsUnique(g: string, h: string, chunk: seq<Byte>)
    requires Spells(g, chunk) && Spells(h, chunk)
    ensures g == h
  {
  }

  lemma DecodeStep(g: string, rest: string, chunk: seq<Byte>, tail: seq<Byte>)
    requires Spells(g, chunk) && (|chunk| < 3 ==> rest == "") && Decode(rest) == Some(tail)
    ensures Decode(g + rest) == Some(chunk + tail)
  {
    SpelledDecodes(g, chunk, rest == "");
    assert (g + rest)[4..] == rest;
  }

  lemma {:induction false} EncodedDecodes(data: seq<Byte>)
    ensures Decode(Encode(data)) == Some(data)
  {
    if data != [] {
      var chunk, rest := data[..Next(data)], data[Next(data)..];
      EncodedDecodes(rest);
      GroupSpells(chunk);
      DecodeStep(Group(chunk), Encode(rest), chunk, rest);
      SplitsAtNext(data);
    }
  }

  lemma {:induction false} DecodedEncodes(text: string)
    requires Decode(text).Some?
    ensures Encode(Decode(text).value) == text
  {
    if text != "" {
      var data := Decode(text).value;
      var g := text[..4];
      var chunk := DecodeGroup(g[0], g[1], g[2], g[3], |text| == 4).value;
      var rest := Decode(text[4..]).value;
      DecodedIsSpelled(g, chunk, |text| == 4);
      DecodedEncodes(text[4..]);
      assert data[..Next(data)] == chunk && data[Next(data)..] == rest;
      GroupSpells(chunk);
      SpellingIsUnique(g, Group(chunk), chunk);
      assert text == g + text[4..];
    }
  }

  // The texts that decode are exactly the encodings, and each decodes to what was encoded.
  lemma DecodesIffEncoded(text: string, data: seq<Byte>)
    ensures Decode(text) == Some(data) <==> text == Encode(data)
  {
    EncodedDecodes(data);
    if Decode(text) == Some(data) { DecodedEncodes(text); }
  }

  ghost predicate PaddedFor(text: string, n: nat) {
    && |text| == (n + 2) / 3 * 4
    && forall k | 0 <= k < |text| :: text[k] == '=' <==> k >= |text| - (3 - n % 3) % 3
  }

  lemma PaddingStep(g: string, rest: string, chunk: seq<Byte>, n: nat)
    requires Spells(g, chunk) && PaddedFor(rest, n) && (|chunk| < 3 ==> n == 0)
    ensures PaddedFor(g + rest, |chunk| + n)
  {
    assert forall k | 0 <= k < 4 :: g[k] == '=' <==> k > |chunk|;
    assert forall k | 4 <= k < 4 + |rest| :: (g + rest)[k] == rest[k - 4];
  }

  // Four characters for every three bytes, the last group filled up with padding.
  lemma {:induction false} EncodedIsPadded(data: seq<Byte>)
    ensures PaddedFor(Encode(data), |data|)
  {
    if data != [] {
      var chunk, rest := data[..Next(data)], data[Next(data)..];
      EncodedIsPadded(rest);
      GroupSpells(chunk);
      PaddingStep(Group(chunk), Encode(rest), chunk, |rest|);
    }
  }

  lemma EncodeFrom(data: seq<Byte>, i: nat, n: nat)
    requires i < |data| && n == Next(data[i..])
    ensures Encode(data[i..]) == Group(data[i..i + n]) + Encode(data[i + n..])
  {
    assert data[i..][..n] == data[i..i + n] && data[i..][n..] == data[i + n..];
  }

  method Lookup(i: nat) returns (c: char)
    requires i < 64
    ensures c == Digit(i)
  {
    TableHolds(i);
    c := TABLE[i];
  }

  // One pass of the loop: the bytes are joined to one number and cut into four digits.
  method EncodeChunk(chunk: seq<Byte>) returns (out: string)
    requires 1 <= |chunk| <= 3
    ensures out == Group(chunk)
  {
    var b0: nat := chunk[0];
    var b1: nat := if |chunk| > 1 then chunk[1] else 0;
    var b2: nat := if |chunk| > 2 then chunk[2] else 0;
    var n := b0 * 65536 + b1 * 256 + b2;
    DigitsOf(b0, b1, b2);
    var c0 := Lookup(n / 262144 % 64);
    var c1 := Lookup(n / 4096 % 64);
    var c2 := Lookup(n / 64 % 64);
    var c3 := Lookup(n % 64);
    out := [c0, c1, if |chunk| > 1 then c2 else '=', if |chunk| > 2 then c3 else '='];
  }

  method Base64Encode(data: seq<Byte>) returns (out: string)
    ensures out == Encode(data)
    ensures Decode(out) == Some(data)
  {
    out := "";
    var i := 0;
    while i < |data|
      invariant i <= |data| && out + Encode(data[i..]) == Encode(data)
    {
      var n := if |data| - i < 3 then |data| - i else 3;
      var group := EncodeChunk(data[i..i + n]);
      EncodeFrom(data, i, n);
      out := out + group;
      i := i + n;
    }
    DecodesIffEncoded(out, data);
  }
}
