/**
 * The two character filters of the binary-code block: the normalizer's
 * digit filter (`replace(/[^01]/g, '')`) and the hover tooltip's
 * whitespace strip (`replace(/\s+/g, "")`).
 */
module Digits {

  predicate IsDigit(c: char) {
    c == '0' || c == '1'
  }

  /** A string over the alphabet {0, 1}. */
  predicate IsBinary(s: string) {
    forall i :: 0 <= i < |s| ==> IsDigit(s[i])
  }

  /** The normalizer's filter: every character other than '0' and '1' is deleted. */
  function KeepDigits(s: string): (r: string)
    ensures IsBinary(r)
    ensures |r| <= |s|
    decreases |s|
  {
    if s == [] then []
    else (if IsDigit(s[0]) then [s[0]] else []) + KeepDigits(s[1..])
  }

  /** Number of occurrences of `c` in `s`. */
  function Count(s: string, c: char): nat
    decreases |s|
  {
    if s == [] then 0 else (if s[0] == c then 1 else 0) + Count(s[1..], c)
  }

  /** `r` is obtained from `s` by deleting some characters, keeping the order of the rest. */
  predicate IsSubsequence(r: string, s: string)
    decreases |s|
  {
    if r == [] then true
    else if s == [] then false
    else (r[0] == s[0] && IsSubsequence(r[1..], s[1..])) || IsSubsequence(r, s[1..])
  }

  /** The filter keeps every '0' and every '1' and nothing else, whitespace included. */
  lemma {:induction false} KeepDigitsCount(s: string, c: char)
    ensures Count(KeepDigits(s), c) == if IsDigit(c) then Count(s, c) else 0
    decreases |s|
  {
    if s != [] {
      KeepDigitsCount(s[1..], c);
      var head: string := if IsDigit(s[0]) then [s[0]] else [];
      CountAppend(head, KeepDigits(s[1..]), c);
    }
  }

  /** The kept digits appear in their original relative order. */
  lemma {:induction false} KeepDigitsSubsequence(s: string)
    ensures IsSubsequence(KeepDigits(s), s)
    decreases |s|
  {
    if s != [] {
      KeepDigitsSubsequence(s[1..]);
      var r := KeepDigits(s);
      if IsDigit(s[0]) {
        assert r == [s[0]] + KeepDigits(s[1..]);
        assert r != [] && r[0] == s[0] && r[1..] == KeepDigits(s[1..]);
        assert IsSubsequence(r[1..], s[1..]);
      } else {
        assert r == KeepDigits(s[1..]);
      }
    }
  }

  /** The filter changes a string exactly when the string holds a character outside {0, 1}. */
  lemma {:induction false} KeepDigitsFixpoint(s: string)
    ensures KeepDigits(s) == s <==> IsBinary(s)
    decreases |s|
  {
    if s != [] {
      KeepDigitsFixpoint(s[1..]);
      if !IsDigit(s[0]) {
        assert |KeepDigits(s)| < |s| by { assert |KeepDigits(s)| == |KeepDigits(s[1..])|; }
      } else if IsBinary(s[1..]) {
        assert IsBinary(s) by {
          forall i | 0 <= i < |s| ensures IsDigit(s[i]) {
            if i > 0 { assert s[i] == s[1..][i - 1]; }
          }
        }
      } else {
        assert !IsBinary(s) by {
          var i :| 0 <= i < |s[1..]| && !IsDigit(s[1..][i]);
          assert s[i + 1] == s[1..][i];
        }
      }
    }
  }

  /** Running the filter twice is the same as running it once. */
  lemma KeepDigitsIdempotent(s: string)
    ensures KeepDigits(KeepDigits(s)) == KeepDigits(s)
  {
    KeepDigitsFixpoint(KeepDigits(s));
  }

  /** The filter works character by character: it distributes over concatenation. */
  lemma {:induction false} KeepDigitsAppend(a: string, b: string)
    ensures KeepDigits(a + b) == KeepDigits(a) + KeepDigits(b)
    decreases |a|
  {
    if a == [] {
      assert a + b == b;
    } else {
      var head: string := if IsDigit(a[0]) then [a[0]] else [];
      assert (a + b)[0] == a[0] && (a + b)[1..] == a[1..] + b;
      assert KeepDigits(a + b) == head + KeepDigits(a[1..] + b);
      KeepDigitsAppend(a[1..], b);
      assert head + (KeepDigits(a[1..]) + KeepDigits(b)) == (head + KeepDigits(a[1..])) + KeepDigits(b);
    }
  }

  lemma {:induction false} CountAppend(a: string, b: string, c: char)
    ensures Count(a + b, c) == Count(a, c) + Count(b, c)
    decreases |a|
  {
    if a == [] {
      assert a + b == b;
    } else {
      assert (a + b)[1..] == a[1..] + b;
      CountAppend(a[1..], b, c);
    }
  }

  /** Every slice of a binary string is binary. */
  lemma BinarySlice(s: string, i: nat, j: nat)
    requires IsBinary(s) && i <= j <= |s|
    ensures IsBinary(s[i..j])
  {
    forall k | 0 <= k < j - i ensures IsDigit(s[i..j][k]) { assert s[i..j][k] == s[i + k]; }
  }

  lemma BinaryAppend(a: string, b: string)
    requires IsBinary(a) && IsBinary(b)
    ensures IsBinary(a + b)
  {
    forall k | 0 <= k < |a + b| ensures IsDigit((a + b)[k]) {
      if k < |a| { assert (a + b)[k] == a[k]; } else { assert (a + b)[k] == b[k - |a|]; }
    }
  }

  /** The characters JavaScript's `\s` matches: WhiteSpace and LineTerminator of ECMAScript. */
  predicate IsWhitespace(c: char) {
    var n := c as int;
    n == 0x09 || n == 0x0A || n == 0x0B || n == 0x0C || n == 0x0D || n == 0x20 ||
    n == 0xA0 || n == 0x1680 || (0x2000 <= n <= 0x200A) || n == 0x2028 || n == 0x2029 ||
    n == 0x202F || n == 0x205F || n == 0x3000 || n == 0xFEFF
  }

  /** The tooltip's `replace(/\s+/g, "")`: every whitespace character deleted. */
  function StripWhitespace(s: string): (r: string)
    ensures forall i :: 0 <= i < |r| ==> !IsWhitespace(r[i])
    ensures |r| <= |s|
    decreases |s|
  {
    if s == [] then []
    else (if IsWhitespace(s[0]) then [] else [s[0]]) + StripWhitespace(s[1..])
  }

  /** Binary digits are not whitespace, so stripping a binary string leaves it as it is. */
  lemma {:induction false} StripBinary(s: string)
    requires IsBinary(s)
    ensures StripWhitespace(s) == s
    decreases |s|
  {
    if s != [] {
      assert IsDigit(s[0]);
      assert IsBinary(s[1..]) by {
        forall i | 0 <= i < |s[1..]| ensures IsDigit(s[1..][i]) { assert s[1..][i] == s[i + 1]; }
      }
      StripBinary(s[1..]);
    }
  }

  /** The strip keeps every character that is not whitespace, with its count, and no whitespace. */
  lemma {:induction false} StripWhitespaceCount(s: string, c: char)
    ensures Count(StripWhitespace(s), c) == if IsWhitespace(c) then 0 else Count(s, c)
    decreases |s|
  {
    if s != [] {
      StripWhitespaceCount(s[1..], c);
      var head: string := if IsWhitespace(s[0]) then [] else [s[0]];
      CountAppend(head, StripWhitespace(s[1..]), c);
    }
  }

  /** The characters kept by the strip appear in their original relative order. */
  lemma {:induction false} StripWhitespaceSubsequence(s: string)
    ensures IsSubsequence(StripWhitespace(s), s)
    decreases |s|
  {
    if s != [] {
      StripWhitespaceSubsequence(s[1..]);
      var r := StripWhitespace(s);
      if !IsWhitespace(s[0]) {
        assert r == [s[0]] + StripWhitespace(s[1..]);
        assert r != [] && r[0] == s[0] && r[1..] == StripWhitespace(s[1..]);
        assert IsSubsequence(r[1..], s[1..]);
      } else {
        assert r == StripWhitespace(s[1..]);
      }
    }
  }
}
