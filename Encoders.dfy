/** The pure encoders of the engine: character codes, the XOR cipher of the
    encryption wrapper, the fixed-size chunker of the self-modifying wrapper and
    the three string-literal techniques. */
module Encoders {
  import opened Wrappers
  import opened Text

  // ---------------------------------------------------------------- character codes

  /** `charCodeAt` of every position (code units are Dafny characters here). */
  function Codes(s: string): (r: seq<nat>)
    ensures |r| == |s| && forall i :: 0 <= i < |s| ==> r[i] == s[i] as nat
  {
    seq(|s|, i requires 0 <= i < |s| => s[i] as nat)
  }

  /** `String.fromCharCode` restricted to codes that name a Dafny character. */
  function CharOf(n: int): Option<char> {
    if 0 <= n < 0xD800 || 0xE000 <= n < 0x11_0000 then Some(n as char) else None
  }

  lemma CharOfCode(c: char)
    ensures CharOf(c as nat) == Some(c)
  {
  }

  /** A number as JavaScript prints it in `join` (integers only). */
  function IntText(n: int): string {
    if n < 0 then "-" + NatToString(-n) else NatToString(n)
  }

  /** `xs.join(',')` for a list of integers. */
  function NumberList(xs: seq<int>): string {
    Join(seq(|xs|, i requires 0 <= i < |xs| => IntText(xs[i])), ",")
  }

  // ---------------------------------------------------------------- XOR

  const Two32: int := 0x1_0000_0000
  const Two31: int := 0x8000_0000

  /** Bitwise exclusive or of two naturals. */
  function Xor(a: nat, b: nat): nat
    decreases a + b
  {
    if a == 0 && b == 0 then 0
    else 2 * Xor(a / 2, b / 2) + (if a % 2 == b % 2 then 0 else 1)
  }

  lemma {:induction false} XorSelfInverse(a: nat, b: nat)
    ensures Xor(Xor(a, b), b) == a
    decreases a + b
  {
    if a == 0 && b == 0 {
    } else {
      var x := Xor(a, b);
      XorSelfInverse(a / 2, b / 2);
      assert x / 2 == Xor(a / 2, b / 2);
      assert x % 2 == (if a % 2 == b % 2 then 0 else 1);
    }
  }

  /** Both operands below 2^k keep the result below 2^k. */
  lemma {:induction false} XorBelow(a: nat, b: nat, m: nat)
    requires m >= 1 && a < m && b < m
    requires IsPowerOfTwo(m)
    ensures Xor(a, b) < m
    decreases m
  {
    if m > 1 && !(a == 0 && b == 0) {
      XorBelow(a / 2, b / 2, m / 2);
    }
  }

  predicate IsPowerOfTwo(m: nat)
    decreases m
  {
    m == 1 || (m >= 2 && m % 2 == 0 && IsPowerOfTwo(m / 2))
  }

  lemma PowerOfTwo32()
    ensures IsPowerOfTwo(Two32)
  {
    PowerOfTwo16();
    PowerProduct(0x1_0000, 0x1_0000);
  }

  lemma {:induction false} PowerProduct(a: nat, b: nat)
    requires IsPowerOfTwo(a) && IsPowerOfTwo(b)
    ensures IsPowerOfTwo(a * b)
    decreases b
  {
    if b > 1 {
      var h := b / 2;
      PowerProduct(a, h);
      assert b == 2 * h;
      MulDouble(a, h);
      PowerDouble(a * h);
    }
  }

  lemma MulDouble(a: nat, h: nat)
    ensures a * (2 * h) == 2 * (a * h)
  {
  }

  lemma PowerDouble(x: nat)
    requires IsPowerOfTwo(x)
    ensures IsPowerOfTwo(2 * x)
  {
    assert (2 * x) / 2 == x;
  }

  /** JavaScript's ToUint32 on an integer. */
  function ToUint32(x: int): (u: nat)
    ensures u < Two32
  {
    x % Two32
  }

  /** JavaScript's ToInt32 on an integer. */
  function ToInt32(x: int): (v: int)
    ensures -Two31 <= v < Two31 && ToUint32(v) == ToUint32(x)
  {
    var u := ToUint32(x);
    if u >= Two31 then u - Two32 else u
  }

  /** The `^` operator on integers. */
  function JsXor(a: int, b: int): (r: int)
    ensures -Two31 <= r < Two31
  {
    ToInt32(Xor(ToUint32(a), ToUint32(b)))
  }

  /** XOR-ing twice with one key gives back the 32-bit value of the operand. */
  lemma JsXorTwice(a: int, key: int)
    ensures JsXor(JsXor(a, key), key) == ToInt32(a)
  {
    var u := ToUint32(a);
    var k := ToUint32(key);
    PowerOfTwo32();
    XorBelow(u, k, Two32);
    var x := Xor(u, k);
    Uint32OfSmall(x);
    assert ToUint32(ToInt32(x)) == x;
    XorSelfInverse(u, k);
    Uint32OfSmall(u);
    assert ToInt32(u) == ToInt32(a);
  }

  /** A value already in `[0, 2^32)` is its own 32-bit unsigned value. */
  lemma Uint32OfSmall(x: nat)
    requires x < Two32
    ensures ToUint32(x) == x
  {
  }

  /** A character code is its own 32-bit value. */
  lemma CodeIsInt32(c: char)
    ensures ToInt32(c as nat) == c as nat
  {
  }

  /** The codes of `s` combined with `key`, one element per character. */
  function XorCodes(s: string, key: int): (r: seq<int>)
    ensures |r| == |s|
  {
    seq(|s|, i requires 0 <= i < |s| => JsXor(s[i] as nat, key))
  }

  /** `simpleXorEncrypt`: a push loop over the characters. */
  method SimpleXorEncrypt(str: string, key: int) returns (encrypted: seq<int>)
    ensures |encrypted| == |str|
    ensures forall i :: 0 <= i < |str| ==> encrypted[i] == JsXor(str[i] as nat, key)
  {
    encrypted := [];
    for i := 0 to |str|
      invariant |encrypted| == i
      invariant forall j :: 0 <= j < i ==> encrypted[j] == JsXor(str[j] as nat, key)
    {
      encrypted := encrypted + [JsXor(str[i] as nat, key)];
    }
  }

  /** Decrypting with the same key gives back the character codes. */
  lemma XorRoundTrip(s: string, key: int)
    ensures forall i :: 0 <= i < |s| ==> JsXor(XorCodes(s, key)[i], key) == s[i] as nat
  {
    forall i | 0 <= i < |s|
      ensures JsXor(XorCodes(s, key)[i], key) == s[i] as nat
    {
      JsXorTwice(s[i] as nat, key);
    }
  }

  /** With a key in 1..255 every encrypted element is a non-negative number
      below 2^21, the bound of every character code. */
  lemma XorSmallKey(c: char, key: nat)
    requires 1 <= key <= 255
    ensures 0 <= JsXor(c as nat, key) < 0x20_0000
  {
    PowerOfTwo21();
    XorBelow(c as nat, key, 0x20_0000);
    SmallIsUint32(c as nat);
    SmallIsUint32(key);
    var x := Xor(c as nat, key);
    SmallIsUint32(x);
  }

  /** Below 2^31 a number is its own 32-bit value, signed or unsigned. */
  lemma SmallIsUint32(x: nat)
    requires x < Two31
    ensures ToUint32(x) == x && ToInt32(x) == x
  {
  }

  lemma PowerOfTwo16()
    ensures IsPowerOfTwo(0x1_0000)
  {
    assert IsPowerOfTwo(4);
    PowerProduct(4, 4);
    PowerProduct(16, 16);
    PowerProduct(256, 256);
  }

  lemma PowerOfTwo21()
    ensures IsPowerOfTwo(0x20_0000)
  {
    PowerOfTwo16();
    PowerProduct(0x1_0000, 32);
  }

  /** The encrypted values as naturals (they are never negative for a key in 1..255). */
  function XorNats(s: string, key: nat): (r: seq<nat>)
    requires 1 <= key <= 255
    ensures |r| == |s| && forall i :: 0 <= i < |s| ==> r[i] == XorCodes(s, key)[i]
  {
    seq(|s|, i requires 0 <= i < |s| => XorNat(s[i], key))
  }

  function XorNat(c: char, key: nat): (n: nat)
    requires 1 <= key <= 255
    ensures n == JsXor(c as nat, key)
  {
    XorSmallKey(c, key);
    JsXor(c as nat, key)
  }

  /** The text `encrypted.join(',')` splits at the commas and reads back as a
      list that XOR-ed with the key again gives the characters of the code. */
  lemma XorPayloadDecodes(s: string, key: nat)
    requires s != [] && 1 <= key <= 255
    ensures ParseNumberList(Split(NumberList(XorCodes(s, key)), ',')) == Some(XorNats(s, key))
    ensures forall i :: 0 <= i < |s| ==> JsXor(XorNats(s, key)[i], key) == s[i] as nat
  {
    var ns := XorNats(s, key);
    assert XorCodes(s, key) == ns;
    NatListDecodes(ns);
    XorRoundTrip(s, key);
  }

  /** A non-empty list of naturals printed with `join(',')` reads back as itself. */
  lemma NatListDecodes(xs: seq<nat>)
    requires xs != []
    ensures ParseNumberList(Split(NumberList(xs), ',')) == Some(xs)
  {
    var texts := NatTexts(xs);
    NumberListOfNats(xs);
    assert forall i :: 0 <= i < |texts| ==> ',' !in texts[i];
    SplitJoin(texts, ',');
    ParseNatTexts(xs);
  }

  // ---------------------------------------------------------------- chunking

  /** `s` cut into consecutive pieces of `n` characters, the last one shorter. */
  function Pieces(s: string, n: nat): seq<string>
    requires n > 0
    decreases |s|
  {
    if s == [] then []
    else if |s| <= n then [s]
    else [s[..n]] + Pieces(s[n..], n)
  }

  /** The pieces put back together give the text. */
  lemma {:induction false} PiecesConcat(s: string, n: nat)
    requires n > 0
    ensures Concat(Pieces(s, n)) == s
    decreases |s|
  {
    if |s| > n {
      PiecesConcat(s[n..], n);
      assert ([s[..n]] + Pieces(s[n..], n))[1..] == Pieces(s[n..], n);
    }
  }

  /** No piece is empty, every piece but the last has exactly `n` characters,
      and there are ceil(|s| / n) of them: the least count whose capacity holds the text. */
  lemma {:induction false} PiecesShape(s: string, n: nat)
    requires n > 0
    ensures s == [] ==> Pieces(s, n) == []
    ensures s != [] ==> (|Pieces(s, n)| - 1) * n < |s| <= |Pieces(s, n)| * n
    ensures forall k :: 0 <= k < |Pieces(s, n)| ==> 0 < |Pieces(s, n)[k]| <= n
    ensures forall k :: 0 <= k < |Pieces(s, n)| - 1 ==> |Pieces(s, n)[k]| == n
    decreases |s|
  {
    if |s| > n {
      PiecesShape(s[n..], n);
      var rest := Pieces(s[n..], n);
      assert Pieces(s, n) == [s[..n]] + rest;
      assert |Pieces(s, n)| * n == |rest| * n + n;
    }
  }

  /** The chunk loop of `generateSelfModifyingCode`: `substring(i, i + 100)`
      for i = 0, 100, 200, ... while i is below the length. */
  method ChunkCode(code: string, chunkSize: nat) returns (chunks: seq<string>)
    requires chunkSize > 0
    ensures chunks == Pieces(code, chunkSize)
  {
    chunks := [];
    var i := 0;
    while i < |code|
      invariant chunks + Pieces(code[Min(i, |code|)..], chunkSize) == Pieces(code, chunkSize)
      decreases |code| - i
    {
      var s := code[i..];
      chunks := chunks + [code[i..Min(i + chunkSize, |code|)]];
      PiecesStep(s, chunkSize);
      assert s[..Min(chunkSize, |s|)] == code[i..Min(i + chunkSize, |code|)];
      assert s[Min(chunkSize, |s|)..] == code[Min(i + chunkSize, |code|)..];
      i := i + chunkSize;
    }
    assert code[Min(i, |code|)..] == [];
  }

  function Min(a: nat, b: nat): nat {
    if a <= b then a else b
  }

  /** One step of the chunk loops: the first piece, then the pieces of the rest. */
  lemma PiecesStep(s: string, n: nat)
    requires n > 0 && s != []
    ensures Pieces(s, n) == [s[..Min(n, |s|)]] + Pieces(s[Min(n, |s|)..], n)
  {
    if |s| <= n {
      assert s[..|s|] == s;
    }
  }

  /** `{c1,c2,...}`: one chunk as a Lua table of character codes. */
  function ChunkArray(chunk: string): string {
    "{" + NumberList(Codes(chunk)) + "}"
  }

  /** A chunk's table is `{`, the chunk's character codes in order, `}`. */
  lemma ChunkArrayDecodes(chunk: string)
    requires chunk != []
    ensures var t := ChunkArray(chunk);
      2 < |t| && t[0] == '{' && t[|t| - 1] == '}'
      && ParseNumberList(Split(t[1..|t| - 1], ',')) == Some(Codes(chunk))
  {
    NatListDecodes(Codes(chunk));
    var t := ChunkArray(chunk);
    assert t[1..|t| - 1] == NumberList(Codes(chunk));
  }

  function ChunkArrays(chunks: seq<string>): seq<string> {
    seq(|chunks|, i requires 0 <= i < |chunks| => ChunkArray(chunks[i]))
  }

  // ---------------------------------------------------------------- string techniques

  /** Technique 0: `string.char(c1,c2,...)`. */
  function CharCodeForm(s: string): string {
    "string.char(" + NumberList(Codes(s)) + ")"
  }

  function Quote(s: string): string {
    "\"" + s + "\""
  }

  function QuoteAll(parts: seq<string>): seq<string> {
    seq(|parts|, i requires 0 <= i < |parts| => Quote(parts[i]))
  }

  /** Technique 1: two-character quoted pieces joined with `..`. */
  function SplitForm(s: string): string {
    Join(QuoteAll(Pieces(s, 2)), "..")
  }

  /** The quoted parts of technique 1 each hold one or two characters, and
      their bodies put together are the literal. */
  lemma SplitFormParts(s: string)
    ensures var parts := Pieces(s, 2);
      && Concat(parts) == s
      && |QuoteAll(parts)| == |parts|
      && (forall k :: 0 <= k < |parts| ==> 1 <= |parts[k]| <= 2 && QuoteAll(parts)[k] == "\"" + parts[k] + "\"")
  {
    PiecesConcat(s, 2);
    PiecesShape(s, 2);
  }

  /** One part of technique 2: a character code at every third index, the quoted character elsewhere. */
  function MixedPart(c: char, i: nat): string {
    if i % 3 == 0 then "string.char(" + NatToString(c as nat) + ")" else Quote([c])
  }

  function MixedParts(s: string): seq<string> {
    seq(|s|, i requires 0 <= i < |s| => MixedPart(s[i], i))
  }

  /** Technique 2 */
  function MixedForm(s: string): string {
    Join(MixedParts(s), "..")
  }

  /** The loop of technique 1. */
  method SplitTechnique(str: string) returns (text: string)
    ensures text == SplitForm(str)
  {
    var parts: seq<string> := [];
    var i := 0;
    while i < |str|
      invariant parts + QuoteAll(Pieces(str[Min(i, |str|)..], 2)) == QuoteAll(Pieces(str, 2))
      decreases |str| - i
    {
      var s := str[i..];
      var part := str[i..Min(i + 2, |str|)];
      parts := parts + [Quote(part)];
      PiecesStep(s, 2);
      assert s[..Min(2, |s|)] == part;
      assert s[Min(2, |s|)..] == str[Min(i + 2, |str|)..];
      QuoteAllCons(part, Pieces(str[Min(i + 2, |str|)..], 2));
      i := i + 2;
    }
    assert str[Min(i, |str|)..] == [];
    assert QuoteAll(Pieces([], 2)) == [];
    assert parts == QuoteAll(Pieces(str, 2));
    text := Join(parts, "..");
  }

  lemma QuoteAllCons(p: string, rest: seq<string>)
    ensures QuoteAll([p] + rest) == [Quote(p)] + QuoteAll(rest)
  {
  }

  /** The loop of technique 2. */
  method MixedTechnique(str: string) returns (text: string)
    ensures text == MixedForm(str)
  {
    var parts: seq<string> := [];
    for i := 0 to |str|
      invariant parts == MixedParts(str[..i])
    {
      var c := str[i];
      if i % 3 == 0 {
        parts := parts + ["string.char(" + NatToString(c as nat) + ")"];
      } else {
        parts := parts + [Quote([c])];
      }
    }
    assert str[..|str|] == str;
    text := Join(parts, "..");
  }

  /** The output of `obfuscateString` is one of the three techniques applied to the literal. */
  predicate IsEncodingOf(s: string, text: string) {
    text == CharCodeForm(s) || text == SplitForm(s) || text == MixedForm(s)
  }

  // ---------------------------------------------------------------- decoding

  /** Reads a comma-separated list of decimal numbers back. */
  function ParseNumberList(parts: seq<string>): Option<seq<nat>>
    decreases |parts|
  {
    if parts == [] then Some([])
    else
      match ParseDecimal(parts[0])
      case None => None
      case Some(n) =>
        match ParseNumberList(parts[1..])
        case None => None
        case Some(rest) => Some([n] + rest)
  }

  function NatTexts(xs: seq<nat>): seq<string> {
    seq(|xs|, i requires 0 <= i < |xs| => NatToString(xs[i]))
  }

  lemma {:induction false} ParseNatTexts(xs: seq<nat>)
    ensures ParseNumberList(NatTexts(xs)) == Some(xs)
    decreases |xs|
  {
    if xs != [] {
      DecimalRoundTrip(xs[0]);
      ParseNatTexts(xs[1..]);
      assert NatTexts(xs)[1..] == NatTexts(xs[1..]);
      assert [xs[0]] + xs[1..] == xs;
    }
  }

  /** The list inside `string.char(...)` splits at the commas and reads back
      as exactly the character codes of the literal, in order. */
  lemma CharCodeFormDecodes(s: string)
    requires s != []
    ensures var t := CharCodeForm(s);
      12 < |t| && t[..12] == "string.char(" && t[|t| - 1] == ')'
      && ParseNumberList(Split(t[12..|t| - 1], ',')) == Some(Codes(s))
  {
    var texts := NatTexts(Codes(s));
    var body := NumberList(Codes(s));
    NumberListOfNats(Codes(s));
    assert forall i :: 0 <= i < |texts| ==> ',' !in texts[i];
    SplitJoin(texts, ',');
    ParseNatTexts(Codes(s));
    var t := CharCodeForm(s);
    assert t[12..|t| - 1] == body;
  }

  lemma NumberListOfNats(xs: seq<nat>)
    ensures NumberList(xs) == Join(NatTexts(xs), ",")
  {
    var ints := seq(|xs|, i requires 0 <= i < |xs| => IntText(xs[i]));
    assert ints == NatTexts(xs);
  }

  /** Reads one part of the mixed technique back to its character. */
  function DecodeMixedPart(p: string): Option<char> {
    if 13 <= |p| && p[..12] == "string.char(" && p[|p| - 1] == ')' then
      match ParseDecimal(p[12..|p| - 1])
      case None => None
      case Some(n) => CharOf(n)
    else if |p| == 3 && p[0] == '"' && p[2] == '"' then Some(p[1])
    else None
  }

  /** Every part of the mixed technique reads back as its character, and the
      character-code form is used exactly at the indices divisible by 3. */
  lemma MixedPartDecodes(c: char, i: nat)
    ensures DecodeMixedPart(MixedPart(c, i)) == Some(c)
    ensures i % 3 == 0 <==> StartsWith(MixedPart(c, i), "string.char(")
  {
    var p := MixedPart(c, i);
    if i % 3 == 0 {
      var d := NatToString(c as nat);
      assert p[12..|p| - 1] == d;
      DecimalRoundTrip(c as nat);
    } else {
      assert p == ['"', c, '"'];
    }
  }

  /** The parts of the mixed technique read back as the literal, character by character. */
  lemma MixedFormDecodes(s: string)
    ensures |MixedParts(s)| == |s|
    ensures forall i :: 0 <= i < |s| ==> DecodeMixedPart(MixedParts(s)[i]) == Some(s[i])
    ensures forall i :: 0 <= i < |s| ==> (i % 3 == 0 <==> StartsWith(MixedParts(s)[i], "string.char("))
  {
    forall i | 0 <= i < |s|
      ensures DecodeMixedPart(MixedParts(s)[i]) == Some(s[i])
      ensures i % 3 == 0 <==> StartsWith(MixedParts(s)[i], "string.char(")
    {
      MixedPartDecodes(s[i], i);
    }
  }
}
