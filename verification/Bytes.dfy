/** Byte strings, the little-endian integers stored in them, and block copies. */
module Bytes {

  type Byte = x: int | 0 <= x < 256

  /** 256^k: the number of values a k-byte unsigned integer can take. */
  function Pow256(k: nat): (r: nat)
    ensures r > 0
  {
    if k == 0 then 1 else 256 * Pow256(k - 1)
  }

  /** The low `width` bytes of n, least significant first. */
  function Le(n: nat, width: nat): (s: seq<Byte>)
    ensures |s| == width
  {
    seq(width, i requires 0 <= i < width => (n / Pow256(i)) % 256)
  }

  /** The unsigned integer a byte string spells, least significant byte first. */
  function LeVal(s: seq<Byte>): (n: nat)
  {
    if s == [] then 0 else s[0] + 256 * LeVal(s[1..])
  }

  /** A store of n into k bytes followed by a load gives n modulo 256^k: a narrowing cast. */
  lemma {:induction false} LeRoundTrip(n: nat, width: nat)
    ensures LeVal(Le(n, width)) == n % Pow256(width)
  {
    if width > 0 {
      LeRoundTrip(n / 256, width - 1);
      assert Le(n, width)[1..] == Le(n / 256, width - 1) by {
        forall i | 0 <= i < width - 1
          ensures (n / Pow256(i + 1)) % 256 == ((n / 256) / Pow256(i)) % 256
        {
          DivDiv(n, 256, Pow256(i));
        }
      }
      assert Le(n, width)[0] == n % 256;
      SplitMod(n, Pow256(width - 1));
    }
  }

  lemma DivDiv(n: nat, a: nat, b: nat)
    requires a > 0 && b > 0
    ensures a * b > 0 && (n / a) / b == n / (a * b)
  {
    MulPos(a, b);
    DivDivBy(n, a, b, n / a, (n / a) / b, (n / a) % b);
  }

  lemma MulPos(a: nat, b: nat)
    requires a > 0 && b > 0
    ensures a * b > 0
  {
  }

  lemma DivDivBy(n: nat, a: nat, b: nat, m: nat, q: nat, r: nat)
    requires a > 0 && b > 0 && a * b > 0
    requires m == n / a && m == b * q + r && r < b
    ensures q == n / (a * b)
  {
    DivSplit(n, a, b, q, r);
    RemainderSmall(a, b, r, n % a);
    DivUnique(n, a * b, q, a * r + n % a);
  }

  lemma DivSplit(n: nat, a: nat, b: nat, q: nat, r: nat)
    requires a > 0 && n / a == b * q + r
    ensures n == (a * b) * q + (a * r + n % a)
  {
    assert n == a * (b * q + r) + n % a;
    assert a * (b * q + r) == a * (b * q) + a * r;
    MulAssoc(a, b, q);
  }

  lemma RemainderSmall(a: nat, b: nat, r: nat, s: nat)
    requires r < b && s < a
    ensures 0 <= a * r + s < a * b
  {
    MulMono(a, r);
    MulMono(a, b - 1 - r);
    assert a * (b - 1 - r) == a * b - a - a * r;
  }

  lemma DivUnique(n: nat, d: nat, q: nat, r: nat)
    requires d > 0 && n == d * q + r && r < d
    ensures n / d == q
  {
    var k := n / d - q;
    assert n == d * (n / d) + n % d;
    assert d * k == d * (n / d) - d * q;
    MulGrows(d, k);
  }

  lemma SplitMod(n: nat, m: nat)
    requires m > 0
    ensures n % 256 + 256 * ((n / 256) % m) == n % (256 * m)
  {
    var q, r := (n / 256) / m, (n / 256) % m;
    assert n / 256 == m * q + r;
    assert n == 256 * (m * q + r) + n % 256;
    assert 256 * (m * q) == (256 * m) * q by { MulAssoc(256, m, q); }
    assert n == (256 * m) * q + (256 * r + n % 256);
    ModUnique(n, 256 * m, q, 256 * r + n % 256);
  }

  lemma MulAssoc(a: nat, b: nat, c: nat)
    ensures a * (b * c) == (a * b) * c
  {
  }

  lemma MulGrows(d: nat, k: int)
    ensures k > 0 ==> d * k >= d
    ensures k < 0 ==> d * k <= -1 * d
  {
    if k > 0 {
      MulMono(d, k - 1);
      assert d * k == d * (k - 1) + d;
    } else if k < 0 {
      MulMono(d, -k - 1);
      assert d * k == -(d * (-k - 1)) - d;
    }
  }

  lemma MulMono(a: nat, b: nat)
    ensures a * b >= 0
  {
  }

  lemma ModUnique(n: nat, d: nat, q: nat, r: nat)
    requires d > 0 && n == d * q + r && r < d
    ensures n % d == r
  {
    var k := n / d - q;
    assert n == d * (n / d) + n % d;
    assert d * k == d * (n / d) - d * q;
    assert d * k == r - n % d;
    MulGrows(d, k);
  }

  /** The widths used by the file and wire formats. */
  lemma Widths()
    ensures Pow256(1) == 0x100 && Pow256(2) == 0x1_0000
    ensures Pow256(3) == 0x100_0000 && Pow256(4) == 0x1_0000_0000
    ensures Pow256(8) == 0x1_0000_0000_0000_0000
  {
    assert Pow256(3) == 256 * Pow256(2);
    assert Pow256(4) == 256 * Pow256(3);
    assert Pow256(5) == 256 * Pow256(4);
    assert Pow256(6) == 256 * Pow256(5);
    assert Pow256(7) == 256 * Pow256(6);
    assert Pow256(8) == 256 * Pow256(7);
  }

  /** m with the bytes at off.. replaced by s: what memcpy leaves behind. */
  function Splice(m: seq<Byte>, off: nat, s: seq<Byte>): (r: seq<Byte>)
    requires off + |s| <= |m|
    ensures |r| == |m|
    ensures r[off..off + |s|] == s
    ensures forall i | 0 <= i < |m| && !(off <= i < off + |s|) :: r[i] == m[i]
  {
    m[..off] + s + m[off + |s|..]
  }

  /** A slice that a block copy does not touch keeps its bytes. */
  lemma SpliceFrame(m: seq<Byte>, off: nat, s: seq<Byte>, lo: nat, hi: nat)
    requires off + |s| <= |m| && lo <= hi <= |m|
    requires hi <= off || off + |s| <= lo
    ensures Splice(m, off, s)[lo..hi] == m[lo..hi]
  {
    var r := Splice(m, off, s);
    assert forall i | lo <= i < hi :: r[i] == m[i];
  }

  /** memcpy into an array. */
  method Store(a: array<Byte>, off: nat, s: seq<Byte>)
    requires off + |s| <= a.Length
    modifies a
    ensures forall k | 0 <= k < |s| :: a[off + k] == s[k]
    ensures forall k | 0 <= k < a.Length && !(off <= k < off + |s|) :: a[k] == old(a[k])
  {
    var i := 0;
    while i < |s|
      invariant 0 <= i <= |s|
      invariant forall k | 0 <= k < i :: a[off + k] == s[k]
      invariant forall k | 0 <= k < a.Length && !(off <= k < off + i) :: a[k] == old(a[k])
    {
      a[off + i] := s[i];
      i := i + 1;
    }
  }
}
