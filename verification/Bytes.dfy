/** Bytes, fixed-width integers and in-place splices: the part of Python's `struct` and
    `bytearray` that the page, log and wire layouts use. */
module Bytes {

  newtype byte = x: int | 0 <= x < 256

  const U16: int := 0x1_0000
  const U32: int := 0x1_0000_0000
  const U64: int := 0x1_0000_0000_0000_0000

  type u32 = x: int | 0 <= x < U32

  function Pow256(k: nat): (r: nat)
    ensures r > 0
  {
    if k == 0 then 1 else 256 * Pow256(k - 1)
  }

  lemma Pow256Values()
    ensures Pow256(1) == 256 && Pow256(2) == U16 && Pow256(4) == U32 && Pow256(8) == U64
  {
    assert Pow256(3) == 256 * U16;
    assert Pow256(5) == 256 * Pow256(4);
    assert Pow256(6) == 256 * Pow256(5);
    assert Pow256(7) == 256 * Pow256(6);
  }

  // ----- little-endian

  function LE(v: nat, k: nat): (r: seq<byte>)
    ensures |r| == k
  {
    if k == 0 then [] else [(v % 256) as byte] + LE(v / 256, k - 1)
  }

  function FromLE(s: seq<byte>): (r: nat)
  {
    if s == [] then 0 else s[0] as int + 256 * FromLE(s[1..])
  }

  lemma {:induction false} FromLEInverts(v: nat, k: nat)
    requires v < Pow256(k)
    ensures FromLE(LE(v, k)) == v
  {
    if k > 0 {
      FromLEInverts(v / 256, k - 1);
      assert LE(v, k)[1..] == LE(v / 256, k - 1);
    }
  }

  lemma {:induction false} LEInverts(s: seq<byte>)
    ensures FromLE(s) < Pow256(|s|)
    ensures LE(FromLE(s), |s|) == s
  {
    if s != [] {
      LEInverts(s[1..]);
      var v := FromLE(s);
      assert v % 256 == s[0] as int && v / 256 == FromLE(s[1..]);
      hide FromLE, Pow256;
      assert LE(v, |s|) == [(v % 256) as byte] + LE(v / 256, |s| - 1);
      assert s == [s[0]] + s[1..];
    }
  }

  // ----- big-endian

  function BE(v: nat, k: nat): (r: seq<byte>)
    ensures |r| == k
  {
    if k == 0 then [] else BE(v / 256, k - 1) + [(v % 256) as byte]
  }

  function FromBE(s: seq<byte>): (r: nat)
  {
    if s == [] then 0 else 256 * FromBE(s[..|s| - 1]) + s[|s| - 1] as int
  }

  lemma {:induction false} FromBEInverts(v: nat, k: nat)
    requires v < Pow256(k)
    ensures FromBE(BE(v, k)) == v
  {
    if k > 0 {
      FromBEInverts(v / 256, k - 1);
      assert BE(v, k)[..k - 1] == BE(v / 256, k - 1);
    }
  }

  lemma {:induction false} BEInverts(s: seq<byte>)
    ensures FromBE(s) < Pow256(|s|)
    ensures BE(FromBE(s), |s|) == s
  {
    if s != [] {
      var t := s[..|s| - 1];
      BEInverts(t);
      assert s == t + [s[|s| - 1]];
    }
  }

  // ----- zero-filled buffers and `buf[off : off + len(d)] = d`

  function Zeros(n: nat): (r: seq<byte>)
    ensures |r| == n
    ensures forall i :: 0 <= i < n ==> r[i] == 0
  {
    seq(n, _ => 0)
  }

  function Splice(buf: seq<byte>, off: nat, d: seq<byte>): (r: seq<byte>)
    requires off + |d| <= |buf|
    ensures |r| == |buf|
    ensures r[off..off + |d|] == d
    ensures r[..off] == buf[..off]
    ensures r[off + |d|..] == buf[off + |d|..]
  {
    buf[..off] + d + buf[off + |d|..]
  }

  /** A window that a splice does not overlap reads the same before and after it. */
  lemma SpliceElsewhere(buf: seq<byte>, off: nat, d: seq<byte>, lo: nat, hi: nat)
    requires off + |d| <= |buf|
    requires lo <= hi <= |buf|
    requires hi <= off || off + |d| <= lo
    ensures Splice(buf, off, d)[lo..hi] == buf[lo..hi]
  {
    var r := Splice(buf, off, d);
    forall i | lo <= i < hi ensures r[i] == buf[i] {
      if i < off {
        assert r[i] == r[..off][i];
      } else {
        assert r[i] == r[off + |d|..][i - off - |d|];
      }
    }
  }
}
