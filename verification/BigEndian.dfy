/** Fixed-width big-endian numbers and two's complement. */
module BigEndian {
  import opened Common
  import opened Arith

  function Pow256(n: nat): nat {
    if n == 0 then 1 else 256 * Pow256(n - 1)
  }

  /** The n low bytes of v, most significant first. */
  function Put(v: nat, n: nat): (b: Bytes)
    ensures |b| == n
  {
    if n == 0 then [] else Put(v / 256, n - 1) + [(v % 256) as byte]
  }

  function Get(b: Bytes): nat {
    if b == [] then 0 else Get(b[..|b| - 1]) * 256 + b[|b| - 1] as nat
  }

  lemma {:induction false} PutGet(v: nat, n: nat)
    requires v < Pow256(n)
    ensures Get(Put(v, n)) == v
  {
    if n > 0 {
      PutGet(v / 256, n - 1);
      assert Put(v, n)[..n - 1] == Put(v / 256, n - 1);
    }
  }

  lemma {:induction false} GetPut(b: Bytes)
    ensures Get(b) < Pow256(|b|) && Put(Get(b), |b|) == b
  {
    if b != [] {
      var init := b[..|b| - 1];
      GetPut(init);
      DivUnique(Get(b), Get(init), b[|b| - 1] as int, 256);
      assert b == init + [b[|b| - 1]];
    }
  }

  /** The first byte is the most significant one. */
  lemma {:induction false} GetCons(x: byte, b: Bytes)
    ensures Get([x] + b) == x as int * Pow256(|b|) + Get(b)
  {
    var s := [x] + b;
    if b == [] {
      assert s[..0] == [];
    } else {
      var init, last := b[..|b| - 1], b[|b| - 1] as int;
      GetCons(x, init);
      assert s[..|s| - 1] == [x] + init;
      assert Pow256(|b|) == 256 * Pow256(|init|);
      assert x as int * (256 * Pow256(|init|)) == 256 * (x as int * Pow256(|init|));
    }
  }

  lemma Pow256Of8()
    ensures Pow256(8) == TWO_64
  {
    assert Pow256(2) == 0x1_0000;
    assert Pow256(4) == 0x1_0000_0000;
    assert Pow256(6) == 0x1_0000_0000_0000;
  }

  /** The unsigned 64-bit reading of an integer, wrapping as the hardware does. */
  function ToUint64(x: int): (u: nat)
    ensures u < TWO_64
  {
    x % TWO_64
  }

  function ToInt64(u: nat): int {
    if u % TWO_64 < TWO_63 then u % TWO_64 else u % TWO_64 - TWO_64
  }

  /** The signed reading is the 64-bit integer that differs by a multiple of 2^64. */
  lemma SignedReading(u: nat)
    ensures -9_223_372_036_854_775_808 <= ToInt64(u) <= 9_223_372_036_854_775_807
    ensures (u - ToInt64(u)) % 18_446_744_073_709_551_616 == 0
  {
  }

  /** The conversion there and back is the identity exactly on the 64-bit integers. */
  lemma Int64RoundTrip(x: int)
    ensures IsInt64(ToInt64(ToUint64(x)))
    ensures ToInt64(ToUint64(x)) == x <==> IsInt64(x)
  {
  }
}
