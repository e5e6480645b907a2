/** Authenticated contexts of the sealed columns: writers, readers, and what a claim opens to. */
module Cryptobox {
  import opened Common
  import opened BigEndian
  import Text

  // ----- length-prefixed sequences

  const TWO_32 := 0x1_0000_0000

  /** Each part is preceded by its length in 32 bits; a longer length loses its high bits. */
  function Aad(parts: seq<Bytes>): Bytes {
    if parts == [] then [] else Put(|parts[0]|, 4) + parts[0] + Aad(parts[1..])
  }

  lemma Regroup(a: Bytes, b: Bytes, c: Bytes, d: Bytes)
    ensures a + (b + c + d) == a + b + c + d
  {
  }

  method BuildAad(parts: seq<Bytes>) returns (result: Bytes)
    ensures result == Aad(parts)
  {
    hide Put;
    result := [];
    var i := 0;
    while i < |parts|
      invariant 0 <= i <= |parts| && result + Aad(parts[i..]) == Aad(parts)
    {
      assert parts[i..][1..] == parts[i + 1..];
      var length := Put(|parts[i]|, 4);
      Regroup(result, length, parts[i], Aad(parts[i + 1..]));
      result := result + length;
      result := result + parts[i];
      i := i + 1;
    }
  }

  predicate ShorterThan(parts: seq<Bytes>, length: nat) {
    forall i :: 0 <= i < |parts| ==> |parts[i]| < length
  }

  predicate Small(parts: seq<Bytes>) {
    ShorterThan(parts, TWO_32)
  }

  lemma Pow256Of4()
    ensures Pow256(4) == TWO_32
  {
    assert Pow256(2) == 0x1_0000;
  }

  /** Below 4 GiB a part, the sequence can be told from its bytes. */
  lemma {:induction false} AadInjective(a: seq<Bytes>, b: seq<Bytes>)
    requires Small(a) && Small(b) && Aad(a) == Aad(b)
    ensures a == b
  {
    if a == [] || b == [] {
      assert a != [] ==> |Aad(a)| >= 4;
      assert b != [] ==> |Aad(b)| >= 4;
    } else {
      var x, y := Put(|a[0]|, 4), Put(|b[0]|, 4);
      assert x == Aad(a)[..4] && y == Aad(b)[..4];
      Pow256Of4();
      PutGet(|a[0]|, 4);
      PutGet(|b[0]|, 4);
      var n := 4 + |a[0]|;
      assert a[0] == Aad(a)[4..n] && b[0] == Aad(b)[4..n];
      assert Aad(a[1..]) == Aad(a)[n..] && Aad(b[1..]) == Aad(b)[n..];
      AadInjective(a[1..], b[1..]);
      assert a == [a[0]] + a[1..] && b == [b[0]] + b[1..];
    }
  }

  function Empties(n: nat): (parts: seq<Bytes>)
    ensures |parts| == n && forall i :: 0 <= i < n ==> parts[i] == []
  {
    if n == 0 then [] else [[]] + Empties(n - 1)
  }

  lemma {:induction false} EmptiesLength(n: nat)
    ensures |Aad(Empties(n))| == 4 * n
  {
    if n > 0 {
      EmptiesLength(n - 1);
      assert Empties(n)[1..] == Empties(n - 1);
    }
  }

  /** Lists of parts shorter than `length` are told apart. */
  ghost predicate InjectiveBelow(length: nat) {
    forall a, b :: ShorterThan(a, length) && ShorterThan(b, length) && Aad(a) == Aad(b) ==> a == b
  }

  /** At 4 GiB it cannot: one such part reads as a run of empty ones. */
  lemma OnePartReadsAsMany() returns (a: seq<Bytes>, b: seq<Bytes>)
    ensures a != b && Aad(a) == Aad(b) && ShorterThan(a, TWO_32 + 1) && ShorterThan(b, TWO_32 + 1)
  {
    var run := Empties(TWO_32 / 4);
    var part := Aad(run);
    EmptiesLength(TWO_32 / 4);
    hide Empties, Aad;
    a, b := [part], [[]] + run;
    OneOf(part);
    OneMore(run);
    ZeroLength();
    assert |a| != |b|;
  }

  /** The encoding is injective on lists of parts shorter than a length exactly when that is at most 4 GiB. */
  lemma AadBoundIsTight(length: nat)
    ensures InjectiveBelow(length) <==> length <= TWO_32
  {
    if length <= TWO_32 {
      forall a, b | ShorterThan(a, length) && ShorterThan(b, length) && Aad(a) == Aad(b)
        ensures a == b
      {
        AadInjective(a, b);
      }
    } else {
      var a, b := OnePartReadsAsMany();
      hide Aad;
      assert ShorterThan(a, length) && ShorterThan(b, length);
    }
  }

  lemma OneOf(part: Bytes)
    ensures Aad([part]) == Put(|part|, 4) + part
  {
    assert [part][1..] == [];
  }

  lemma OneMore(run: seq<Bytes>)
    ensures Aad([[]] + run) == Put(0, 4) + Aad(run)
  {
    assert ([[]] + run)[1..] == run;
  }

  lemma ZeroLength()
    ensures Put(TWO_32, 4) == Put(0, 4)
  {
    assert Put(TWO_32, 4) == Put(TWO_32 / 256, 3) + [0];
    assert Put(TWO_32 / 256, 3) == Put(TWO_32 / 0x1_0000, 2) + [0];
    assert Put(TWO_32 / 0x1_0000, 2) == Put(TWO_32 / 0x100_0000, 1) + [0];
    assert Put(TWO_32 / 0x100_0000, 1) == Put(1, 0) + [0];
    assert Put(0, 4) == Put(0, 3) + [0] && Put(0, 3) == Put(0, 2) + [0];
    assert Put(0, 2) == Put(0, 1) + [0] && Put(0, 1) == Put(0, 0) + [0];
  }

  // ----- contexts

  /** What an envelope is bound to; `legacy` selects the first format. Identifiers are their canonical texts. */
  datatype Context =
    | Target(legacy: bool, workspace: Bytes, endpoint: Bytes, scheme: Bytes, host: Bytes, port: int)
    | Payload(legacy: bool, workspace: Bytes, event: Bytes, eventType: Bytes)
    | Secret(legacy: bool, workspace: Bytes, endpoint: Bytes, version: Bytes, keyId: Bytes)

  function Port(n: int): Bytes {
    Ascii(Text.Decimal(n))
  }

  function Parts(c: Context): seq<Bytes> {
    match c
    case Target(true, w, e, s, h, p) => [Ascii("1"), w, e, s, h, Port(p)]
    case Target(false, w, e, s, h, p) => [Ascii("2"), w, Ascii("endpoint_target"), e, s, h, Port(p)]
    case Payload(true, w, e, t) => [Ascii("1"), w, e, t]
    case Payload(false, w, e, t) => [Ascii("2"), w, Ascii("event_payload"), e, t]
    case Secret(true, w, e, v, k) => [Ascii("1"), w, e, v, k]
    case Secret(false, w, e, v, k) => [Ascii("2"), w, Ascii("signing_secret"), e, v, k]
  }

  lemma AsciiInjective(a: string, b: string)
    requires forall i :: 0 <= i < |a| ==> a[i] as int < 256
    requires forall i :: 0 <= i < |b| ==> b[i] as int < 256
    requires Ascii(a) == Ascii(b)
    ensures a == b
  {
    assert |a| == |Ascii(a)| == |b|;
    forall i | 0 <= i < |a|
      ensures a[i] == b[i]
    {
      assert Ascii(a)[i] as int == a[i] as int && Ascii(b)[i] as int == b[i] as int;
    }
  }

  lemma PortInjective(m: int, n: int)
    requires Port(m) == Port(n)
    ensures m == n
  {
    Text.DecimalShape(m);
    Text.DecimalShape(n);
    hide Text.Decimal;
    AsciiInjective(Text.Decimal(m), Text.Decimal(n));
    Text.DecimalInjective(m, n);
  }

  /** Contexts of any two kinds and formats never share their bytes; within one, every field is fixed by them. */
  lemma ContextsNeverCoincide(c: Context, d: Context)
    requires Small(Parts(c)) && Small(Parts(d))
    ensures Aad(Parts(c)) == Aad(Parts(d)) <==> c == d
  {
    if Aad(Parts(c)) == Aad(Parts(d)) {
      AadInjective(Parts(c), Parts(d));
      hide Port, Aad, Small;
      assert Ascii("1")[0] == 49 && Ascii("2")[0] == 50;
      assert Parts(c)[0] == Parts(d)[0];
      assert c.legacy == d.legacy;
      assert |Parts(c)| == |Parts(d)|;
      if c.Target? {
        assert d.Target?;
        PortInjective(c.port, d.port);
      }
    }
  }
}
