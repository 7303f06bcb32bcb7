/** Byte strings, their array order, and the 32-byte values the program addresses and hashes with. */
module Bytes {
  import opened Rounding

  type byte = n: int | 0 <= n < 256

  type Bytes = seq<byte>

  /** A `[u8; 32]`: a public key or a SHA-256 digest. */
  type Bytes32 = s: Bytes | |s| == 32 witness seq(32, i => 0)

  type Pubkey = Bytes32

  function Zeros(n: nat): (r: Bytes)
    ensures |r| == n && forall i :: 0 <= i < n ==> r[i] == 0
  {
    seq(n, i => 0)
  }

  /** A hash function, left abstract: SHA-256 of a byte string. */
  type Hash = Bytes -> Bytes32

  function Ascii(s: string): (r: Bytes)
    requires forall i :: 0 <= i < |s| ==> s[i] < 128 as char
    ensures |r| == |s| && forall i :: 0 <= i < |s| ==> r[i] == s[i] as int
  {
    seq(|s|, i requires 0 <= i < |s| => s[i] as int)
  }

  /** Little-endian integers of a fixed width. */
  function Le(n: nat, width: nat): (r: Bytes)
    ensures |r| == width
  {
    if width == 0 then [] else [n % 256] + Le(n / 256, width - 1)
  }

  function FromLe(b: Bytes): nat {
    if b == [] then 0 else b[0] + 256 * FromLe(b[1..])
  }

  ghost function Radix(width: nat): nat {
    if width == 0 then 1 else 256 * Radix(width - 1)
  }

  lemma {:induction false} LeRoundTrip(n: nat, width: nat)
    requires n < Radix(width)
    ensures FromLe(Le(n, width)) == n
  {
    if width > 0 {
      LeRoundTrip(n / 256, width - 1);
    }
  }

  lemma {:induction false} FromLeRoundTrip(b: Bytes)
    ensures FromLe(b) < Radix(|b|)
    ensures Le(FromLe(b), |b|) == b
  {
    if b != [] {
      FromLeRoundTrip(b[1..]);
      var high := FromLe(b[1..]);
      assert FromLe(b) == b[0] + 256 * high;
      assert FromLe(b) % 256 == b[0] && FromLe(b) / 256 == high;
      assert b == [b[0]] + b[1..];
    }
  }

  /** The first byte is the least significant: byte `i` counts for `256^i`. */
  lemma {:induction false} LeByPlaceValue(n: nat, width: nat, i: nat)
    requires i < width
    ensures 1 <= Radix(i) && Le(n, width)[i] as int == n / Radix(i) % 256
  {
    if i > 0 {
      LeByPlaceValue(n / 256, width - 1, i - 1);
      DivideTwice(n, Radix(i - 1));
    }
  }

  lemma DivideTwice(n: nat, r: int)
    requires 1 <= r
    ensures n / 256 / r == n / (256 * r)
  {
    var m := n / 256;
    var q := m / r;
    FloorBounds(m, r);
    assert q * (256 * r) == 256 * (q * r) && (q + 1) * (256 * r) == 256 * ((q + 1) * r);
    FloorUnique(n, 256 * r, q);
  }

  lemma Widths()
    ensures Radix(2) == 0x1_0000 && Radix(4) == 0x1_0000_0000 && Radix(8) == 0x1_0000_0000_0000_0000
  {
  }

  /** Byte-array comparison: first difference decides, a prefix comes first. */
  predicate LexLe(a: Bytes, b: Bytes) {
    if a == [] || b == [] then a == []
    else a[0] < b[0] || (a[0] == b[0] && LexLe(a[1..], b[1..]))
  }

  /** The order is decided by the first byte that differs, the smaller one first; a proper prefix
      comes before what it starts. */
  lemma {:induction false} FirstDifferenceDecides(a: Bytes, b: Bytes, i: nat)
    requires i <= |a| && i <= |b| && a[..i] == b[..i]
    ensures i < |a| && i < |b| && a[i] != b[i] ==> (LexLe(a, b) <==> a[i] < b[i])
    ensures i == |a| ==> LexLe(a, b)
    ensures i == |b| < |a| ==> !LexLe(a, b)
  {
    if i > 0 {
      assert a[0] == a[..i][0] == b[..i][0] == b[0];
      assert a[1..][..i - 1] == a[..i][1..] == b[..i][1..] == b[1..][..i - 1];
      FirstDifferenceDecides(a[1..], b[1..], i - 1);
    }
  }

  lemma {:induction false} LexTotal(a: Bytes, b: Bytes)
    ensures LexLe(a, b) || LexLe(b, a)
    ensures LexLe(a, b) && LexLe(b, a) ==> a == b
  {
    if a == [] || b == [] {
    } else {
      LexTotal(a[1..], b[1..]);
      assert a == [a[0]] + a[1..] && b == [b[0]] + b[1..];
    }
  }

  lemma {:induction false} LexTransitive(a: Bytes, b: Bytes, c: Bytes)
    requires LexLe(a, b) && LexLe(b, c)
    ensures LexLe(a, c)
  {
    if a == [] || b == [] || c == [] {
    } else if a[0] == b[0] == c[0] {
      LexTransitive(a[1..], b[1..], c[1..]);
    }
  }

  /** Two distinct inputs, one hashed on each side, with the same hash. */
  ghost predicate Collides(h: Hash, ps: set<Bytes>, qs: set<Bytes>) {
    exists p, q :: p in ps && q in qs && p != q && h(p) == h(q)
  }
}
