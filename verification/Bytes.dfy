/** Byte strings and the fixed-width integers that the tunnel puts on the wire. */
module Bytes {

  type byte = x: int | 0 <= x < 256

  const U16_SIZE: nat := 0x1_0000
  const U64_SIZE: nat := 0x1_0000_0000_0000_0000

  type u64 = x: int | 0 <= x < 0x1_0000_0000_0000_0000

  /** A count kept in a u64 that wraps. */
  function Wrap64(n: nat): u64 {
    n % 0x1_0000_0000_0000_0000
  }

  /** Counting on from a wrapped count is counting on and wrapping. */
  lemma Wrap64Add(n: nat, k: nat)
    ensures Wrap64(Wrap64(n) + k) == Wrap64(n + k)
  {
  }

  datatype Option<+T> = None | Some(value: T)

  /** `(n as u16).to_be_bytes()`: the cast keeps the low 16 bits. */
  function ToU16(n: nat): (s: seq<byte>)
    ensures |s| == 2
  {
    [(n / 256) % 256, n % 256]
  }

  /** `u16::from_be_bytes`. */
  function FromU16(s: seq<byte>): (n: nat)
    requires |s| == 2
    ensures n < U16_SIZE
  {
    s[0] as int * 256 + s[1] as int
  }

  lemma U16RoundTrip(n: nat)
    ensures FromU16(ToU16(n)) == n % 0x1_0000
  {
    var q, r := n / 256, n % 256;
    assert n == 256 * q + r;
    var k, hi := q / 256, q % 256;
    assert q == 256 * k + hi;
    Remainder(n, k, 256 * hi + r);
  }

  lemma Remainder(n: nat, k: nat, r: nat)
    requires n == 0x1_0000 * k + r && r < 0x1_0000
    ensures n % 0x1_0000 == r
  {
  }

  lemma U16Inverse(s: seq<byte>)
    requires |s| == 2
    ensures ToU16(FromU16(s)) == s
  {
    var hi: nat, lo: nat := s[0], s[1];
    assert (hi * 256 + lo) / 256 == hi && (hi * 256 + lo) % 256 == lo;
  }

  /** The `width` low-order bytes of `n`, least significant first. */
  function LittleEndian(n: nat, width: nat): (s: seq<byte>)
    ensures |s| == width
  {
    if width == 0 then [] else [n % 256] + LittleEndian(n / 256, width - 1)
  }

  function FromLittleEndian(s: seq<byte>): nat {
    if s == [] then 0 else s[0] + 256 * FromLittleEndian(s[1..])
  }

  function Pow256(k: nat): (p: nat)
    ensures p > 0
  {
    if k == 0 then 1 else 256 * Pow256(k - 1)
  }

  lemma {:induction false} LittleEndianRoundTrip(n: nat, width: nat)
    requires n < Pow256(width)
    ensures FromLittleEndian(LittleEndian(n, width)) == n
  {
    if width != 0 {
      LittleEndianRoundTrip(n / 256, width - 1);
    }
  }

  lemma Pow256Of8()
    ensures Pow256(8) == U64_SIZE
  {
    assert Pow256(4) == 256 * (256 * (256 * (256 * Pow256(0))));
    assert Pow256(8) == 256 * (256 * (256 * (256 * Pow256(4))));
  }

  function Flat<T>(parts: seq<seq<T>>): seq<T> {
    if parts == [] then [] else parts[0] + Flat(parts[1..])
  }

  lemma {:induction false} FlatAppend<T>(a: seq<seq<T>>, b: seq<seq<T>>)
    ensures Flat(a + b) == Flat(a) + Flat(b)
  {
    if a == [] {
      assert a + b == b;
    } else {
      assert (a + b)[1..] == a[1..] + b;
      FlatAppend(a[1..], b);
    }
  }

  lemma FlatSnoc<T>(a: seq<seq<T>>, p: seq<T>)
    ensures Flat(a + [p]) == Flat(a) + p
  {
    FlatAppend(a, [p]);
    assert [p][1..] == [];
    assert Flat([p]) == p;
  }

  /** Two ways to cut one string: if the first pieces have equal length, the cuts agree. */
  lemma SplitUnique<T>(a: seq<T>, b: seq<T>, c: seq<T>, d: seq<T>)
    requires a + b == c + d && |a| == |c|
    ensures a == c && b == d
  {
    assert a == (a + b)[..|a|] == (c + d)[..|c|] == c;
    assert b == (a + b)[|a|..] == (c + d)[|c|..] == d;
  }
}
