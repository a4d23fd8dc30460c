/**
 Rendering bytes as lowercase, zero-padded hexadecimal text, as
 `byte.toString(16).padStart(2, "0")` followed by `join("")` does, and the
 `startsWith` test on sequences. The central fact is that, because every
 byte becomes exactly two hex digits and no two bytes share a rendering, a
 prefix test on the hex text is the same as a prefix test on the bytes.
 */
module Hex {

  /** True iff `c` is a digit that `Number.prototype.toString(16)` can write. */
  predicate IsLowerHexDigit(c: char)
  {
    '0' <= c <= '9' || 'a' <= c <= 'f'
  }

  /** The numeric value of a lowercase hex digit. */
  function DigitValue(c: char): (v: int)
    requires IsLowerHexDigit(c)
    ensures 0 <= v < 16
  {
    if c <= '9' then c as int - '0' as int else c as int - 'a' as int + 10
  }

  /** The lowercase hex digit for a value below sixteen. */
  function HexDigit(d: int): (c: char)
    requires 0 <= d < 16
    ensures IsLowerHexDigit(c)
    ensures DigitValue(c) == d
  {
    if d < 10 then ('0' as int + d) as char else ('a' as int + d - 10) as char
  }

  /** One byte as exactly two lowercase hex digits, high nibble first
      (the single digit of a byte below 0x10 is padded with a leading '0'). */
  function ByteHex(b: bv8): (s: string)
    ensures |s| == 2
    ensures IsLowerHexDigit(s[0]) && IsLowerHexDigit(s[1])
    ensures 16 * DigitValue(s[0]) + DigitValue(s[1]) == b as int
  {
    [HexDigit(b as int / 16), HexDigit(b as int % 16)]
  }

  /** Distinct bytes have distinct renderings. */
  lemma ByteHexInjective(a: bv8, b: bv8)
    ensures ByteHex(a) == ByteHex(b) <==> a == b
  {
  }

  /** The renderings of all bytes of `bs`, concatenated in order. */
  function HexString(bs: seq<bv8>): (s: string)
    ensures |s| == 2 * |bs|
    ensures forall i :: 0 <= i < |bs| ==> s[2 * i] == ByteHex(bs[i])[0] && s[2 * i + 1] == ByteHex(bs[i])[1]
    ensures forall k :: 0 <= k < |s| ==> IsLowerHexDigit(s[k])
  {
    if |bs| == 0 then [] else ByteHex(bs[0]) + HexString(bs[1..])
  }

  /** JavaScript's `s.startsWith(p)`: `p` is a prefix of `s`. */
  predicate StartsWith<T(==)>(s: seq<T>, p: seq<T>)
  {
    |p| <= |s| && s[..|p|] == p
  }

  /** `startsWith` compares element by element: `p` is a prefix of `s`
      exactly when `s` is at least as long and agrees with `p` at every
      position of `p`. */
  lemma StartsWithPointwise<T>(s: seq<T>, p: seq<T>)
    ensures StartsWith(s, p) <==> |p| <= |s| && forall i :: 0 <= i < |p| ==> s[i] == p[i]
  {
    if |p| <= |s| && forall i :: 0 <= i < |p| ==> s[i] == p[i] {
      assert s[..|p|] == p;
    }
  }

  /** A prefix test on two concatenations whose heads have equal length
      splits into equality of the heads and a prefix test on the tails. */
  lemma StartsWithSplit<T>(x: seq<T>, xs: seq<T>, y: seq<T>, ys: seq<T>)
    requires |x| == |y|
    ensures StartsWith(x + xs, y + ys) <==> x == y && StartsWith(xs, ys)
  {
    if StartsWith(x + xs, y + ys) {
      assert x == (x + xs)[..|x|] == (y + ys)[..|y|] == y;
      assert xs[..|ys|] == (x + xs)[|x|..|x| + |ys|] == (y + ys)[|y|..];
    }
    if x == y && StartsWith(xs, ys) {
      assert (x + xs)[..|y + ys|] == x + xs[..|ys|];
    }
  }

  /** Matching the hex text of `bs` against the hex text of `sig` is the same
      as matching `bs` against `sig` byte for byte. */
  lemma {:induction false} HexPrefixIffBytePrefix(bs: seq<bv8>, sig: seq<bv8>)
    ensures StartsWith(HexString(bs), HexString(sig)) <==> StartsWith(bs, sig)
  {
    if |sig| == 0 {
      assert HexString(sig) == [];
    } else if |bs| == 0 {
      assert |HexString(bs)| < |HexString(sig)|;
    } else {
      HexPrefixIffBytePrefix(bs[1..], sig[1..]);
      StartsWithSplit(ByteHex(bs[0]), HexString(bs[1..]), ByteHex(sig[0]), HexString(sig[1..]));
      assert bs == [bs[0]] + bs[1..];
      assert sig == [sig[0]] + sig[1..];
      StartsWithSplit([bs[0]], bs[1..], [sig[0]], sig[1..]);
      ByteHexInjective(bs[0], sig[0]);
    }
  }
}
