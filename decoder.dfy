/**
 * The binary decoder of the binary-code block (`binaryToString`): the text
 * is cut left to right into chunks of at most eight characters, each chunk
 * is read by `parseInt` in base 2 and turned into the character with that
 * code by `String.fromCharCode`. A trailing chunk of fewer than eight
 * characters is decoded like the others.
 */
module Decoder {
  import opened Wrappers
  import opened Digits

  function Pow2(n: nat): (p: nat)
    ensures p >= 1
  {
    if n == 0 then 1 else 2 * Pow2(n - 1)
  }

  function Min(a: int, b: int): int {
    if a < b then a else b
  }

  /** The value of a binary digit. */
  function DigitValue(c: char): nat {
    if c == '1' then 1 else 0
  }

  /** `parseInt(bits, 2)` on a string of binary digits, most significant digit first. */
  function BitValue(bits: string): nat {
    if bits == [] then 0
    else 2 * BitValue(bits[..|bits| - 1]) + DigitValue(bits[|bits| - 1])
  }

  /** A value of `n` digits is below 2^n. */
  lemma {:induction false} BitValueBound(bits: string)
    ensures BitValue(bits) < Pow2(|bits|)
    decreases |bits|
  {
    if bits != [] {
      BitValueBound(bits[..|bits| - 1]);
    }
  }

  lemma {:induction false} Pow2AtMost(n: nat)
    requires n <= 8
    ensures Pow2(n) <= 256
  {
    if n < 8 { Pow2Below(n, 8); }
  }

  lemma {:induction false} Pow2Below(n: nat, m: nat)
    requires n <= m
    ensures Pow2(n) <= Pow2(m)
    decreases m - n
  {
    if n < m { Pow2Below(n, m - 1); }
  }

  /**
   * `binary.match(/.{1,8}/g)` on text without line terminators, which `.`
   * would not match: greedy chunks of one to eight characters, left to right.
   */
  function Chunks(s: string): (cs: seq<string>)
    ensures |cs| == (|s| + 7) / 8
    ensures forall k :: 0 <= k < |cs| ==> Window(s, k, cs[k])
    decreases |s|
  {
    if s == [] then []
    else if |s| <= 8 then [s]
    else
      var rest := Chunks(s[8..]);
      ChunksCons(s, rest);
      [s[..8]] + rest
  }

  /** `chunk` is the k-th eight-digit window of `s`, cut short at the end of `s`. */
  predicate Window(s: string, k: nat, chunk: string) {
    8 * k < |s| && chunk == s[8 * k .. Min(8 * k + 8, |s|)]
  }

  lemma ChunksCons(s: string, rest: seq<string>)
    requires |s| > 8
    requires |rest| == (|s| - 8 + 7) / 8
    requires forall k :: 0 <= k < |rest| ==> Window(s[8..], k, rest[k])
    ensures |[s[..8]] + rest| == (|s| + 7) / 8
    ensures forall k :: 0 <= k < |rest| + 1 ==> Window(s, k, ([s[..8]] + rest)[k])
  {
    var cs := [s[..8]] + rest;
    forall k | 0 <= k < |cs| ensures Window(s, k, cs[k]) {
      if k > 0 {
        assert Window(s[8..], k - 1, rest[k - 1]);
        assert s[8..][8 * (k - 1) .. Min(8 * (k - 1) + 8, |s| - 8)] == s[8 * k .. Min(8 * k + 8, |s|)];
      }
    }
  }

  /** Every chunk but the last has exactly eight digits; the last has one to eight. */
  lemma ChunkLengths(s: string)
    ensures forall k :: 0 <= k < |Chunks(s)| - 1 ==> |Chunks(s)[k]| == 8
    ensures |Chunks(s)| > 0 ==> 1 <= |Chunks(s)[|Chunks(s)| - 1]| <= 8
  {
    var cs := Chunks(s);
    forall k | 0 <= k < |cs| - 1 ensures |cs[k]| == 8 {
      assert Window(s, k, cs[k]);
    }
    if |cs| > 0 {
      assert Window(s, |cs| - 1, cs[|cs| - 1]);
    }
  }

  /** Gluing the chunks back together gives the digit string. */
  function Flatten(cs: seq<string>): string {
    if cs == [] then [] else cs[0] + Flatten(cs[1..])
  }

  lemma {:induction false} ChunksStep(s: string)
    requires |s| >= 8
    ensures Chunks(s) == [s[..8]] + Chunks(s[8..])
  {
    if |s| == 8 {
      assert s[..8] == s && s[8..] == [];
    }
  }

  lemma {:induction false} ChunksFlatten(s: string)
    ensures Flatten(Chunks(s)) == s
    decreases |s|
  {
    if s != [] && |s| > 8 {
      ChunksStep(s);
      ChunksFlatten(s[8..]);
      var cs := Chunks(s);
      assert cs[1..] == Chunks(s[8..]);
      assert s == s[..8] + s[8..];
    } else if s != [] {
      assert Chunks(s)[1..] == [];
      assert s + [] == s;
    }
  }

  /** The longest prefix of binary digits: where `parseInt` stops reading. */
  function DigitPrefix(s: string): (p: string)
    ensures |p| <= |s|
    decreases |s|
  {
    if s == [] || !IsDigit(s[0]) then [] else [s[0]] + DigitPrefix(s[1..])
  }

  /** The prefix is a run of binary digits, followed by a character that is not one, if any. */
  lemma {:induction false} DigitPrefixLongest(s: string)
    ensures var p := DigitPrefix(s);
      p == s[..|p|] && IsBinary(p) && (|p| < |s| ==> !IsDigit(s[|p|]))
    decreases |s|
  {
    if s != [] && IsDigit(s[0]) {
      DigitPrefixLongest(s[1..]);
      var rest := DigitPrefix(s[1..]);
      assert DigitPrefix(s) == [s[0]] + rest;
      assert forall i :: 0 < i <= |rest| ==> ([s[0]] + rest)[i] == rest[i - 1];
      assert s[..|rest| + 1] == [s[0]] + s[1..][..|rest|];
    }
  }

  /**
   * `parseInt(chunk, 2)` on a chunk without leading whitespace, which
   * `parseInt` would skip: an optional sign, then the digits up to the first
   * character that is not '0' or '1'; `None` stands for NaN, the result when
   * no digit follows the sign.
   */
  function ParseBinary(chunk: string): Option<int> {
    var signed := |chunk| > 0 && (chunk[0] == '-' || chunk[0] == '+');
    var digits := DigitPrefix(if signed then chunk[1..] else chunk);
    var v: int := BitValue(digits);
    if digits == [] then None
    else if signed && chunk[0] == '-' then Some(-v)
    else Some(v)
  }

  /** The code unit `String.fromCharCode` makes of a number: NaN gives 0, any other value is taken modulo 2^16. */
  function CharCode(n: Option<int>): nat {
    if n.None? then 0 else n.value % 0x1_0000
  }

  lemma ModSmall(v: int)
    requires 0 <= v < 0x1_0000
    ensures v % 0x1_0000 == v
  {
  }

  lemma ModNegative(v: int)
    requires -0x1_0000 < v < 0
    ensures v % 0x1_0000 == v + 0x1_0000
  {
  }

  /** On a non-empty binary chunk `parseInt` reads the whole chunk. */
  lemma ParseDigits(chunk: string)
    requires IsBinary(chunk) && chunk != []
    ensures ParseBinary(chunk) == Some(BitValue(chunk))
  {
    assert IsDigit(chunk[0]);
    DigitPrefixAll(chunk);
  }

  lemma {:induction false} DigitPrefixAll(s: string)
    requires IsBinary(s)
    ensures DigitPrefix(s) == s
    decreases |s|
  {
    if s != [] {
      assert IsDigit(s[0]);
      BinarySlice(s, 1, |s|);
      DigitPrefixAll(s[1..]);
      assert s == [s[0]] + s[1..];
    }
  }

  /** A chunk of at most eight characters parses to a number of magnitude below 256. */
  lemma ParseBound(chunk: string)
    requires |chunk| <= 8
    ensures ParseBinary(chunk).Some? ==> -256 < ParseBinary(chunk).value < 256
  {
    var signed := |chunk| > 0 && (chunk[0] == '-' || chunk[0] == '+');
    var digits := DigitPrefix(if signed then chunk[1..] else chunk);
    BitValueBound(digits);
    Pow2AtMost(|digits|);
  }

  /** `String.fromCharCode(parseInt(chunk, 2))` on one chunk of at most eight characters. */
  function ChunkChar(chunk: string): char
    requires |chunk| <= 8
  {
    var n := ParseBinary(chunk);
    ParseBound(chunk);
    if n.Some? && n.value < 0 then
      ModNegative(n.value);
      CharCode(n) as char
    else if n.Some? then
      ModSmall(n.value);
      CharCode(n) as char
    else
      CharCode(n) as char
  }

  /** A non-empty binary chunk gives the character whose code is its base-2 value. */
  lemma ChunkCharBinary(chunk: string)
    requires IsBinary(chunk) && 1 <= |chunk| <= 8
    ensures ChunkChar(chunk) as int == BitValue(chunk) < 256
  {
    var v := BitValue(chunk);
    ParseDigits(chunk);
    BitValueBound(chunk);
    Pow2AtMost(|chunk|);
    assert 0 <= v < 256;
    ModSmall(v);
    assert CharCode(ParseBinary(chunk)) == v;
  }

  /** The base-2 value of the k-th chunk of `binary`: digits 8k .. 8k+7, fewer at the end. */
  function ChunkValue(binary: string, k: nat): (v: nat)
    requires 8 * k < |binary|
    ensures v < 256
  {
    var j := Min(8 * k + 8, |binary|);
    Pow2AtMost(j - 8 * k);
    BitValueBound(binary[8 * k .. j]);
    BitValue(binary[8 * k .. j])
  }

  /**
   * `binaryToString`: one output character per chunk, in order; the trailing
   * chunk of fewer than eight characters is decoded too, and the empty
   * string, on which `match` yields null, decodes to "".
   */
  function BinaryToString(binary: string): (r: string)
    ensures |r| == (|binary| + 7) / 8
  {
    var bytes := Chunks(binary);
    if bytes == [] then ""
    else seq(|bytes|, k requires 0 <= k < |bytes| => ChunkChar(bytes[k]))
  }

  /** On a binary string, each output character's code is the base-2 value of its chunk. */
  lemma DecodeChunks(binary: string)
    requires IsBinary(binary)
    ensures forall k :: 0 <= k < |BinaryToString(binary)| ==>
      8 * k < |binary| && BinaryToString(binary)[k] as int == ChunkValue(binary, k)
  {
    var bytes := Chunks(binary);
    forall k | 0 <= k < |BinaryToString(binary)|
      ensures 8 * k < |binary| && BinaryToString(binary)[k] as int == ChunkValue(binary, k)
    {
      assert Window(binary, k, bytes[k]);
      BinarySlice(binary, 8 * k, Min(8 * k + 8, |binary|));
      ChunkCharBinary(bytes[k]);
    }
  }

  /** Up to eight characters form a single chunk: one character. */
  lemma DecodeShort(s: string)
    requires 1 <= |s| <= 8
    ensures BinaryToString(s) == [ChunkChar(s)]
  {
    assert Window(s, 0, Chunks(s)[0]);
    assert s[0..Min(8, |s|)] == s;
  }

  /** Past the first eight characters, decoding goes on with the rest. */
  lemma DecodeStep(s: string)
    requires |s| > 8
    ensures BinaryToString(s) == [ChunkChar(s[..8])] + BinaryToString(s[8..])
  {
    ChunksStep(s);
    var r, t := BinaryToString(s), BinaryToString(s[8..]);
    forall k | 0 <= k < |r| ensures r[k] == ([ChunkChar(s[..8])] + t)[k] {
      if k > 0 {
        assert Chunks(s)[k] == Chunks(s[8..])[k - 1];
      }
    }
  }

  lemma BitValuePrefix(s: string, n: nat)
    requires 0 < n <= |s|
    ensures BitValue(s[..n]) == 2 * BitValue(s[..n - 1]) + DigitValue(s[n - 1])
  {
    assert s[..n][..n - 1] == s[..n - 1];
  }

  /** The base-2 value of a full eight-digit chunk, digit by digit. */
  lemma ByteValue(s: string)
    requires |s| == 8
    ensures BitValue(s) == 128 * DigitValue(s[0]) + 64 * DigitValue(s[1]) + 32 * DigitValue(s[2])
      + 16 * DigitValue(s[3]) + 8 * DigitValue(s[4]) + 4 * DigitValue(s[5])
      + 2 * DigitValue(s[6]) + DigitValue(s[7])
  {
    var d0, d1, d2, d3 := DigitValue(s[0]), DigitValue(s[1]), DigitValue(s[2]), DigitValue(s[3]);
    var d4, d5, d6, d7 := DigitValue(s[4]), DigitValue(s[5]), DigitValue(s[6]), DigitValue(s[7]);
    BitValuePrefix(s, 1);
    assert s[..0] == [];
    var v1 := BitValue(s[..1]);
    assert v1 == d0;
    BitValuePrefix(s, 2);
    var v2 := BitValue(s[..2]);
    assert v2 == 2 * v1 + d1;
    BitValuePrefix(s, 3);
    var v3 := BitValue(s[..3]);
    assert v3 == 2 * v2 + d2;
    BitValuePrefix(s, 4);
    var v4 := BitValue(s[..4]);
    assert v4 == 2 * v3 + d3;
    BitValuePrefix(s, 5);
    var v5 := BitValue(s[..5]);
    assert v5 == 2 * v4 + d4;
    BitValuePrefix(s, 6);
    var v6 := BitValue(s[..6]);
    assert v6 == 2 * v5 + d5;
    BitValuePrefix(s, 7);
    var v7 := BitValue(s[..7]);
    assert v7 == 2 * v6 + d6;
    BitValuePrefix(s, 8);
    assert s[..8] == s;
    assert BitValue(s) == 2 * v7 + d7;
  }

  /**
   * Decoding is compositional on byte boundaries: a prefix whose length is a
   * multiple of eight decodes on its own.
   */
  lemma DecodeAppend(a: string, b: string)
    requires |a| % 8 == 0
    ensures BinaryToString(a + b) == BinaryToString(a) + BinaryToString(b)
  {
    var n := |a| / 8;
    assert |a| == 8 * n;
    DecodeAppendBytes(a, b, n);
  }

  /** A string of at least one byte decodes to its first chunk's character, then the rest. */
  lemma DecodeHead(a: string)
    requires |a| >= 8
    ensures BinaryToString(a) == [ChunkChar(a[..8])] + BinaryToString(a[8..])
  {
    if |a| == 8 {
      assert a[..8] == a && a[8..] == [];
      DecodeShort(a);
    } else {
      DecodeStep(a);
    }
  }

  lemma {:induction false} DecodeAppendBytes(a: string, b: string, n: nat)
    requires |a| == 8 * n
    ensures BinaryToString(a + b) == BinaryToString(a) + BinaryToString(b)
    decreases n
  {
    var s := a + b;
    if n == 0 {
      assert s == b;
    } else if b == [] {
      assert s == a;
    } else {
      assert s[..8] == a[..8] && s[8..] == a[8..] + b;
      var head := [ChunkChar(a[..8])];
      var tail, rest := BinaryToString(a[8..]), BinaryToString(b);
      DecodeStep(s);
      DecodeAppendBytes(a[8..], b, n - 1);
      DecodeHead(a);
      assert head + (tail + rest) == (head + tail) + rest;
    }
  }

  /** At most one byte of digits decodes to the single character with its value. */
  lemma DecodeByte(s: string, c: char)
    requires IsBinary(s) && 1 <= |s| <= 8 && BitValue(s) == c as int
    ensures BinaryToString(s) == [c]
  {
    DecodeShort(s);
    ChunkCharBinary(s);
  }

  /**
   * Characters other than '0' and '1' reach `parseInt` when the block is not
   * normalized: it stops at the first of them, a chunk with no leading digit
   * gives NaN and so U+0000, and a leading '-' negates the value modulo 2^16.
   */
  lemma DecodeNonDigits()
    ensures BinaryToString("01x") == [1 as char]
    ensures BinaryToString("x1") == [0 as char]
    ensures BinaryToString("-1") == [0xFFFF as char]
  {
    DecodeShort("01x");
    assert "01x"[1..][1..] == "x";
    assert DigitPrefix("01x") == "01";
    assert "01"[..1] == "0" && "0"[..0] == "";
    DecodeShort("x1");
    DecodeShort("-1");
    assert "-1"[1..] == "1" && "1"[1..] == "" && "1"[..0] == "";
  }

  /** The first binary block of the initial document decodes to "hi". */
  lemma DecodeHi()
    ensures BinaryToString("0110100001101001") == "hi"
  {
    var h, i := "01101000", "01101001";
    ByteValue(h); DecodeByte(h, 'h');
    ByteValue(i); DecodeByte(i, 'i');
    DecodeAppend(h, i);
    assert h + i == "0110100001101001";
  }

  /** A literal byte and the character it encodes. */
  lemma ByteCode(byte: string, c: char)
    requires |byte| == 8 && forall i :: 0 <= i < 8 ==> IsDigit(byte[i])
    requires 128 * DigitValue(byte[0]) + 64 * DigitValue(byte[1]) + 32 * DigitValue(byte[2])
      + 16 * DigitValue(byte[3]) + 8 * DigitValue(byte[4]) + 4 * DigitValue(byte[5])
      + 2 * DigitValue(byte[6]) + DigitValue(byte[7]) == c as int
    ensures IsBinary(byte) && BitValue(byte) == c as int
  {
    ByteValue(byte);
  }

  /**
   * A list of whole bytes, each encoding one character of `text`, decodes to
   * exactly `text`.
   */
  lemma {:induction false} DecodeBytes(bytes: seq<string>, text: string)
    requires |bytes| == |text|
    requires forall k :: 0 <= k < |bytes| ==>
      IsBinary(bytes[k]) && |bytes[k]| == 8 && BitValue(bytes[k]) == text[k] as int
    ensures IsBinary(Flatten(bytes)) && |Flatten(bytes)| == 8 * |bytes|
    ensures BinaryToString(Flatten(bytes)) == text
  {
    if bytes != [] {
      DecodeBytes(bytes[1..], text[1..]);
      DecodeByte(bytes[0], text[0]);
      BinaryAppend(bytes[0], Flatten(bytes[1..]));
      DecodeAppend(bytes[0], Flatten(bytes[1..]));
      assert text == [text[0]] + text[1..];
    }
  }

  lemma {:induction false} FlattenTen(bs: seq<string>)
    requires |bs| == 10
    ensures Flatten(bs) == (bs[0] + bs[1] + bs[2] + bs[3] + bs[4]) + (bs[5] + bs[6] + bs[7] + bs[8] + bs[9])
  {
    assert Flatten(bs[10..]) == [];
    assert Flatten(bs[9..]) == bs[9] + Flatten(bs[10..]);
    assert Flatten(bs[8..]) == bs[8] + Flatten(bs[9..]);
    assert Flatten(bs[7..]) == bs[7] + Flatten(bs[8..]);
    assert Flatten(bs[6..]) == bs[6] + Flatten(bs[7..]);
    assert Flatten(bs[5..]) == bs[5] + Flatten(bs[6..]);
    assert Flatten(bs[4..]) == bs[4] + Flatten(bs[5..]);
    assert Flatten(bs[3..]) == bs[3] + Flatten(bs[4..]);
    assert Flatten(bs[2..]) == bs[2] + Flatten(bs[3..]);
    assert Flatten(bs[1..]) == bs[1] + Flatten(bs[2..]);
  }

  lemma HelloDigits()
    ensures "01001000" + "01100101" + "01101100" + "01101100" + "01101111" == "0100100001100101011011000110110001101111"
  {}

  lemma WorldDigits()
    ensures "01010111" + "01101111" + "01110010" + "01101100" + "01100100" == "0101011101101111011100100110110001100100"
  {}

  lemma HelloWorldHalves()
    ensures "0100100001100101011011000110110001101111" + "0101011101101111011100100110110001100100" == "01001000011001010110110001101100011011110101011101101111011100100110110001100100"
  {}

  /** The ten bytes of the second binary block of the initial document. */
  lemma HelloWorldDigits()
    ensures Flatten(["01001000", "01100101", "01101100", "01101100", "01101111", "01010111", "01101111", "01110010", "01101100", "01100100"]) == "01001000011001010110110001101100011011110101011101101111011100100110110001100100"
  {
    FlattenTen(["01001000", "01100101", "01101100", "01101100", "01101111", "01010111", "01101111", "01110010", "01101100", "01100100"]);
    HelloDigits(); WorldDigits(); HelloWorldHalves();
  }

  /** The second binary block of the initial document decodes to "HelloWorld". */
  lemma DecodeHelloWorld()
    ensures IsBinary(Flatten(["01001000", "01100101", "01101100", "01101100", "01101111", "01010111", "01101111", "01110010", "01101100", "01100100"])) && BinaryToString(Flatten(["01001000", "01100101", "01101100", "01101100", "01101111", "01010111", "01101111", "01110010", "01101100", "01100100"])) == "HelloWorld"
  {
    ByteCode("01001000", 'H'); ByteCode("01100101", 'e'); ByteCode("01101100", 'l');
    ByteCode("01101111", 'o'); ByteCode("01010111", 'W'); ByteCode("01110010", 'r'); ByteCode("01100100", 'd');
    DecodeBytes(["01001000", "01100101", "01101100", "01101100", "01101111", "01010111", "01101111", "01110010", "01101100", "01100100"], "HelloWorld");
  }

  /**
   * Twelve digits decode to two characters: "H" and the character with code 6,
   * the value of the trailing four-digit chunk "0110".
   */
  lemma Value0110()
    ensures IsBinary("0110") && BitValue("0110") == 6
  {
    assert "0110"[..3] == "011" && "011"[..2] == "01" && "01"[..1] == "0" && "0"[..0] == "";
  }

  lemma DecodeTrailingChunk()
    ensures BinaryToString("010010000110") == ['H', 6 as char]
  {
    ByteCode("01001000", 'H');
    DecodeByte("01001000", 'H');
    Value0110();
    DecodeByte("0110", 6 as char);
    DecodeAppend("01001000", "0110");
    assert "01001000" + "0110" == "010010000110";
  }
}
