/** Bytes, fixed-width unsigned integers and the little-endian encoding. */
module Bytes {

  type byte = b: int | 0 <= b < 0x100
  type u32 = x: int | 0 <= x < 0x1_0000_0000
  type u64 = x: int | 0 <= x < 0x1_0000_0000_0000_0000

  /** 256 to the power `n`: one more than the largest value of `n` bytes. */
  function Pow256(n: nat): nat {
    if n == 0 then 1 else 256 * Pow256(n - 1)
  }

  /** The little-endian value of a byte string: the meaning of Rust's `from_le_bytes`. */
  function LeValue(s: seq<byte>): nat {
    if |s| == 0 then 0 else s[0] + 256 * LeValue(s[1..])
  }

  /** The `n`-byte little-endian encoding of `v` (the inverse of `LeValue`). */
  function LeBytes(v: nat, n: nat): (r: seq<byte>)
    ensures |r| == n
  {
    if n == 0 then [] else [v % 256] + LeBytes(v / 256, n - 1)
  }

  lemma {:induction false} LeValueBound(s: seq<byte>)
    ensures LeValue(s) < Pow256(|s|)
  {
    if |s| > 0 {
      LeValueBound(s[1..]);
    }
  }

  lemma {:induction false} LeValueOfLeBytes(v: nat, n: nat)
    requires v < Pow256(n)
    ensures LeValue(LeBytes(v, n)) == v
  {
    if n > 0 {
      var r := LeBytes(v, n);
      assert r[1..] == LeBytes(v / 256, n - 1);
      LeValueOfLeBytes(v / 256, n - 1);
    }
  }

  lemma {:induction false} LeBytesOfLeValue(s: seq<byte>)
    ensures LeBytes(LeValue(s), |s|) == s
  {
    if |s| > 0 {
      var v := LeValue(s);
      assert v % 256 == s[0] && v / 256 == LeValue(s[1..]);
      LeBytesOfLeValue(s[1..]);
    }
  }

  /** Unfolds `LeValue` over a slice of four bytes. */
  lemma LeValue4(s: seq<byte>)
    requires |s| == 4
    ensures LeValue(s) == s[0] as int + 0x100 * (s[1] as int) + 0x1_0000 * (s[2] as int) + 0x100_0000 * (s[3] as int)
  {
    assert LeValue(s[3..]) == s[3] by {
      assert s[3..][1..] == [];
    }
    assert LeValue(s[2..]) == s[2] + 256 * LeValue(s[3..]) by {
      assert s[2..][1..] == s[3..];
    }
    assert LeValue(s[1..]) == s[1] + 256 * LeValue(s[2..]) by {
      assert s[1..][1..] == s[2..];
    }
  }

  /** Unfolds `LeValue` over a slice of eight bytes. */
  lemma LeValue8(s: seq<byte>)
    requires |s| == 8
    ensures LeValue(s) == LeValue(s[..4]) + 0x1_0000_0000 * LeValue(s[4..])
  {
    LeValueSplit(s, 4);
  }

  /** The value of a concatenation: the low bytes, plus the high bytes shifted. */
  lemma {:induction false} LeValueSplit(s: seq<byte>, k: nat)
    requires k <= |s|
    ensures LeValue(s) == LeValue(s[..k]) + Pow256(k) * LeValue(s[k..])
  {
    if k == 0 {
      assert s[..0] == [] && s[0..] == s;
    } else {
      var tail := s[1..];
      LeValueSplit(tail, k - 1);
      assert tail[..k - 1] == s[..k][1..];
      assert tail[k - 1..] == s[k..];
      var lo := LeValue(tail[..k - 1]);
      var hi := LeValue(s[k..]);
      var p := Pow256(k - 1);
      assert LeValue(tail) == lo + p * hi;
      assert LeValue(s[..k]) == s[0] + 256 * lo;
      assert Pow256(k) == 256 * p;
      ShiftDistributes(lo, p, hi);
    }
  }

  lemma ShiftDistributes(lo: nat, p: nat, hi: nat)
    ensures 256 * (lo + p * hi) == 256 * lo + (256 * p) * hi
  {
  }

  /** The middle pieces of a four-part concatenation, recovered by slicing. */
  lemma SliceOfConcat(a: seq<byte>, b: seq<byte>, c: seq<byte>, d: seq<byte>)
    ensures (a + b + c + d)[|a|..|a| + |b|] == b
    ensures (a + b + c + d)[|a| + |b|..|a| + |b| + |c|] == c
  {
  }

  /** A window of `buf` that holds `a + b` holds `a` and then `b`. */
  lemma SplitWindow(buf: seq<byte>, i: nat, a: seq<byte>, b: seq<byte>)
    requires i + |a| + |b| <= |buf| && buf[i..i + |a| + |b|] == a + b
    ensures buf[i..i + |a|] == a
    ensures buf[i + |a|..i + |a| + |b|] == b
  {
    assert buf[i..i + |a|] == buf[i..i + |a| + |b|][..|a|];
    assert buf[i + |a|..i + |a| + |b|] == buf[i..i + |a| + |b|][|a|..];
  }
}
