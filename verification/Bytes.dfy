/** Bytes and fixed-width integers as byte strings. */
module Bytes {
  import opened Types

  type byte = b: int | 0 <= b < 256

  function Pow256(n: nat): (p: nat)
    ensures p > 0
  {
    if n == 0 then 1 else 256 * Pow256(n - 1)
  }

  lemma Pow256Values()
    ensures Pow256(4) == 0x1_0000_0000 && Pow256(8) == 0x1_0000_0000_0000_0000
  {
    assert Pow256(4) == 256 * (256 * (256 * (256 * Pow256(0))));
    assert Pow256(8) == 256 * (256 * (256 * (256 * Pow256(4))));
  }

  /** `from_le_bytes`: lowest byte first. */
  function LeWord(s: seq<byte>): (w: nat)
    ensures w < Pow256(|s|)
  {
    if s == [] then 0 else s[0] + 256 * LeWord(s[1..])
  }

  /** `to_le_bytes` for a width of n bytes. */
  function LeBytes(w: nat, n: nat): (s: seq<byte>)
    requires w < Pow256(n)
    ensures |s| == n && LeWord(s) == w
  {
    if n == 0 then [] else
      var low: byte := w % 256;
      assert ([low] + LeBytes(w / 256, n - 1))[1..] == LeBytes(w / 256, n - 1);
      [low] + LeBytes(w / 256, n - 1)
  }

  lemma SameDigits(a: nat, x: byte, b: nat, y: byte)
    requires 256 * a + x == 256 * b + y
    ensures a == b && x == y
  {}

  /** Equal words of one width have equal bytes. */
  lemma {:induction false} LeWordInjective(s: seq<byte>, t: seq<byte>)
    requires |s| == |t| && LeWord(s) == LeWord(t)
    ensures s == t
  {
    if s != [] {
      SameDigits(LeWord(s[1..]), s[0], LeWord(t[1..]), t[0]);
      LeWordInjective(s[1..], t[1..]);
      assert s == [s[0]] + s[1..] && t == [t[0]] + t[1..];
    }
  }

  /** `from_be_bytes`: highest byte first. */
  function BeWord(s: seq<byte>): (w: nat)
    ensures w < Pow256(|s|)
  {
    if s == [] then 0 else 256 * BeWord(s[..|s| - 1]) + s[|s| - 1]
  }

  /** `to_be_bytes` for a width of n bytes. */
  function BeBytes(w: nat, n: nat): (s: seq<byte>)
    requires w < Pow256(n)
    ensures |s| == n && BeWord(s) == w
  {
    if n == 0 then [] else
      var low: byte := w % 256;
      assert (BeBytes(w / 256, n - 1) + [low])[..n - 1] == BeBytes(w / 256, n - 1);
      BeBytes(w / 256, n - 1) + [low]
  }

  lemma {:induction false} BeWordInjective(s: seq<byte>, t: seq<byte>)
    requires |s| == |t| && BeWord(s) == BeWord(t)
    ensures s == t
  {
    if s != [] {
      var m := |s| - 1;
      SameDigits(BeWord(s[..m]), s[m], BeWord(t[..m]), t[m]);
      BeWordInjective(s[..m], t[..m]);
      assert s == s[..m] + [s[m]] && t == t[..m] + [t[m]];
    }
  }

  function U64Bytes(n: u64): (s: seq<byte>)
    ensures |s| == 8 && BeWord(s) == n
  {
    Pow256Values();
    BeBytes(n, 8)
  }

  function U32Bytes(n: u32): (s: seq<byte>)
    ensures |s| == 4 && BeWord(s) == n
  {
    Pow256Values();
    BeBytes(n, 4)
  }

  lemma ConcatAssoc(a: seq<byte>, b: seq<byte>, c: seq<byte>)
    ensures (a + b) + c == a + (b + c)
  {}

  lemma ConcatEmpty(a: seq<byte>)
    ensures a + [] == a && [] + a == a
  {}

  /** A fixed-width field is recovered from a concatenation. */
  lemma SameParts(a: seq<byte>, b: seq<byte>, c: seq<byte>, d: seq<byte>)
    requires |a| == |c| && a + b == c + d
    ensures a == c && b == d
  {
    assert a == (a + b)[..|a|] && c == (c + d)[..|c|];
    assert b == (a + b)[|a|..] && d == (c + d)[|c|..];
  }

  /** n consecutive bytes of an endless stream. */
  function Slice(stream: nat -> byte, from: nat, n: nat): (s: seq<byte>)
    ensures |s| == n
  {
    seq(n, i requires 0 <= i < n => stream(from + i))
  }

  lemma SliceAppend(stream: nat -> byte, from: nat, m: nat, n: nat)
    ensures Slice(stream, from, m) + Slice(stream, from + m, n) == Slice(stream, from, m + n)
  {}
}
