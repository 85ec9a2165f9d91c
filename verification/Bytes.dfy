/** Little-endian integers and pages as byte sequences. */
module Bytes {
  type byte = b: int | 0 <= b < 256

  const PAGE_SIZE: nat := 4096

  type U32 = n: nat | n < 0x1_0000_0000
  type U64 = n: nat | n < 0x1_0000_0000_0000_0000

  type Page = p: seq<byte> | |p| == PAGE_SIZE witness seq(PAGE_SIZE, _ => 0)

  function ZeroPage(): Page {
    seq(PAGE_SIZE, _ => 0)
  }

  function Max(a: nat, b: nat): nat {
    if a < b then b else a
  }

  function Pow256(w: nat): (r: nat)
    ensures 0 < r
  {
    if w == 0 then 1 else 256 * Pow256(w - 1)
  }

  /** Byte `i` of `n`, counting from the least significant. */
  function ByteAt(n: nat, i: nat): byte
    decreases i
  {
    if i == 0 then n % 256 else ByteAt(n / 256, i - 1)
  }

  /** The `w` low-order bytes of `n`, least significant first. */
  function ToLE(n: nat, w: nat): (s: seq<byte>)
    ensures |s| == w
  {
    seq(w, (i: nat) => ByteAt(n, i))
  }

  /** A number below 256 is its first byte, with zeros behind it. */
  lemma {:induction false} SmallLE(n: byte, w: nat)
    requires 0 < w
    ensures ToLE(n, w) == [n] + seq(w - 1, _ => 0)
  {
    var s := ToLE(n, w);
    assert s[0] == n;
    forall i: nat | 0 < i < w
      ensures s[i] == 0
    {
      ZeroBytes(i - 1);
    }
  }

  lemma {:induction false} ZeroBytes(i: nat)
    ensures ByteAt(0, i) == 0
    decreases i
  {
    if i != 0 {
      ZeroBytes(i - 1);
    }
  }

  /** The number whose little-endian bytes are `s[i..]`. */
  function NumFrom(s: seq<byte>, i: nat): nat
    decreases |s| - i
  {
    if i >= |s| then 0 else s[i] + 256 * NumFrom(s, i + 1)
  }

  function FromLE(s: seq<byte>): nat {
    NumFrom(s, 0)
  }

  lemma {:induction false} NumFromTail(s: seq<byte>, t: seq<byte>, i: nat)
    requires s != [] && t == s[1..]
    ensures NumFrom(s, i + 1) == NumFrom(t, i)
    decreases |s| - i
  {
    if i < |t| {
      NumFromTail(s, t, i + 1);
    }
  }

  lemma {:induction false} LERoundTrip(n: nat, w: nat)
    requires n < Pow256(w)
    ensures FromLE(ToLE(n, w)) == n
    decreases w
  {
    if w != 0 {
      LERoundTrip(n / 256, w - 1);
      var s, t := ToLE(n, w), ToLE(n / 256, w - 1);
      assert s[1..] == t;
      NumFromTail(s, t, 0);
    }
  }

  lemma {:induction false} NumFromBound(s: seq<byte>, i: nat)
    requires i <= |s|
    ensures NumFrom(s, i) < Pow256(|s| - i)
    decreases |s| - i
  {
    if i < |s| {
      NumFromBound(s, i + 1);
    }
  }

  lemma {:induction false} FromLEBound(s: seq<byte>)
    ensures FromLE(s) < Pow256(|s|)
  {
    NumFromBound(s, 0);
  }

  lemma {:induction false} PowersOf256()
    ensures Pow256(4) == 0x1_0000_0000 && Pow256(8) == 0x1_0000_0000_0000_0000
  {
    assert Pow256(1) == 256 && Pow256(2) == 65536 && Pow256(3) == 16777216;
    assert Pow256(5) == 256 * 0x1_0000_0000 && Pow256(6) == 65536 * 0x1_0000_0000 && Pow256(7) == 16777216 * 0x1_0000_0000;
  }

  lemma {:induction false} U32RoundTrip(n: U32)
    ensures FromLE(ToLE(n, 4)) == n
  {
    PowersOf256();
    LERoundTrip(n, 4);
  }

  lemma {:induction false} U64RoundTrip(n: U64)
    ensures FromLE(ToLE(n, 8)) == n
  {
    PowersOf256();
    LERoundTrip(n, 8);
  }

  // ---------------------------------------------------------------- numbers inside a buffer

  function U32At(buf: seq<byte>, off: nat): (n: U32)
    requires off + 4 <= |buf|
  {
    FromLEBound(buf[off..off + 4]);
    PowersOf256();
    FromLE(buf[off..off + 4])
  }

  function U64At(buf: seq<byte>, off: nat): (n: U64)
    requires off + 8 <= |buf|
  {
    FromLEBound(buf[off..off + 8]);
    PowersOf256();
    FromLE(buf[off..off + 8])
  }

  /** A signed 64-bit number as the unsigned one that has the same bits. */
  function SignedBits(i: int): U64
    requires -0x8000_0000_0000_0000 <= i < 0x8000_0000_0000_0000
  {
    if i < 0 then i + 0x1_0000_0000_0000_0000 else i
  }

  function SignedOf(bits: nat): int {
    if bits < 0x8000_0000_0000_0000 then bits else bits - 0x1_0000_0000_0000_0000
  }

  /** Bytes are what their number encodes to. */
  lemma {:induction false} LEInverse(s: seq<byte>)
    ensures ToLE(FromLE(s), |s|) == s
    decreases |s|
  {
    if s != [] {
      var t := s[1..];
      LEInverse(t);
      NumFromTail(s, t, 0);
      var n := FromLE(s);
      assert n % 256 == s[0] && n / 256 == FromLE(t);
      assert ToLE(n, |s|)[1..] == ToLE(n / 256, |t|);
      assert ToLE(n, |s|) == [s[0]] + t;
    }
  }
}
