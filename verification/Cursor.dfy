/** The authenticated page cursors of the delivery and endpoint lists. */
module Cursor {
  import opened Common
  import opened BigEndian
  import Base64Url

  /** UUIDs in byte order, so that comparing them as numbers is comparing their bytes. */
  type Uuid = x: nat | x < 0x1_0000_0000_0000_0000_0000_0000_0000_0000

  const NIL: Uuid := 0

  /** HMAC-SHA256, uninterpreted. */
  type Mac = (Digest, Bytes) -> Digest

  /** An instant in nanoseconds since 1970; Go's zero time is the year 1. */
  const ZERO_TIME := -62_135_596_800_000_000_000

  datatype Position = Position(createdAt: int, id: Uuid)

  /** The domain text separates the two lists; only the delivery list bounds the text it decodes. */
  datatype Codec = Codec(domain: string, maxText: Option<nat>)

  const DELIVERY := Codec("delivery-cursor:v1\n", Some(256))
  const ENDPOINT := Codec("endpoint-cursor:v1\n", None)

  const ZERO_KEY: Digest := [0,0,0,0,0,0,0,0,0,0,0,0,0,0,0,0,0,0,0,0,0,0,0,0,0,0,0,0,0,0,0,0]

  const VERSION: byte := 1
  const PAYLOAD_SIZE := 41
  const CURSOR_SIZE := 73

  function Payload(workspace: Uuid, p: Position): (b: Bytes)
    ensures |b| == PAYLOAD_SIZE
  {
    [VERSION] + Put(workspace, 16) + Put(ToUint64(p.createdAt), 8) + Put(p.id, 16)
  }

  function Tag(c: Codec, mac: Mac, key: Digest, payload: Bytes): Digest {
    mac(key, Ascii(c.domain) + payload)
  }

  function Encode(c: Codec, mac: Mac, key: Digest, workspace: Uuid, p: Position): Result<string, ()> {
    if key == ZERO_KEY || workspace == NIL || p.id == NIL || p.createdAt == ZERO_TIME then Err(())
    else Ok(Base64Url.Encode(Payload(workspace, p) + Tag(c, mac, key, Payload(workspace, p))))
  }

  /** None is the start of the list: an empty text. */
  function Decode(c: Codec, mac: Mac, key: Digest, workspace: Uuid, raw: string): Result<Option<Position>, ()> {
    if raw == "" then Ok(None)
    else if key == ZERO_KEY || workspace == NIL || (c.maxText.Some? && |raw| > c.maxText.value) then Err(())
    else
      match Base64Url.Decode(raw)
      case None => Err(())
      case Some(b) =>
        if |b| != CURSOR_SIZE || b[0] != VERSION then Err(())
        else if b[PAYLOAD_SIZE..] != Tag(c, mac, key, b[..PAYLOAD_SIZE]) || b[1..17] != Put(workspace, 16) then Err(())
        else
          var p := ReadPosition(b);
          if p.id == NIL || p.createdAt == ZERO_TIME then Err(()) else Ok(Some(p))
  }

  function ReadPosition(b: Bytes): Position
    requires |b| == CURSOR_SIZE
  {
    IdBound(b[25..41]);
    Position(ToInt64(Get(b[17..25])), Get(b[25..41]))
  }

  lemma IdBound(b: Bytes)
    requires |b| == 16
    ensures Get(b) < 0x1_0000_0000_0000_0000_0000_0000_0000_0000
  {
    GetPut(b);
    Pow256Of16();
  }

  lemma Pow256Of16()
    ensures Pow256(16) == 0x1_0000_0000_0000_0000_0000_0000_0000_0000
  {
    Pow256Of8();
    assert Pow256(10) == 0x1_0000_0000_0000_0000_0000;
    assert Pow256(12) == 0x1_0000_0000_0000_0000_0000_0000;
    assert Pow256(14) == 0x1_0000_0000_0000_0000_0000_0000_0000;
  }

  lemma PayloadFields(workspace: Uuid, p: Position, tag: Digest)
    ensures var b := Payload(workspace, p) + tag;
      && b[0] == VERSION && b[1..17] == Put(workspace, 16) && b[17..25] == Put(ToUint64(p.createdAt), 8)
      && b[25..41] == Put(p.id, 16) && b[..PAYLOAD_SIZE] == Payload(workspace, p) && b[PAYLOAD_SIZE..] == tag
  {
  }

  /** What a position becomes on the wire: its instant wrapped to 64 bits. */
  function Wrapped(p: Position): Position {
    Position(ToInt64(ToUint64(p.createdAt)), p.id)
  }

  lemma ReadBack(workspace: Uuid, p: Position, tag: Digest)
    ensures ReadPosition(Payload(workspace, p) + tag) == Wrapped(p)
  {
    PayloadFields(workspace, p, tag);
    Pow256Of8();
    Pow256Of16();
    PutGet(ToUint64(p.createdAt), 8);
    PutGet(p.id, 16);
  }

  /** Every cursor handed out decodes for its workspace, to the position with its instant wrapped. */
  lemma EncodedDecodes(c: Codec, mac: Mac, key: Digest, workspace: Uuid, p: Position)
    requires Encode(c, mac, key, workspace, p).Ok? && (c == DELIVERY || c == ENDPOINT)
    ensures var raw := Encode(c, mac, key, workspace, p).value;
      raw != "" && Decode(c, mac, key, workspace, raw) == Ok(Some(Wrapped(p)))
  {
    var payload := Payload(workspace, p);
    var tag := Tag(c, mac, key, payload);
    var b := payload + tag;
    Base64Url.RoundTrip(b);
    Base64Url.EncodedText(b);
    PayloadFields(workspace, p, tag);
    ReadBack(workspace, p, tag);
    Int64RoundTrip(p.createdAt);
  }

  /** The codec gives a position back exactly when its instant fits 64 bits of nanoseconds. */
  lemma RoundTripIffInt64(c: Codec, mac: Mac, key: Digest, workspace: Uuid, p: Position)
    requires Encode(c, mac, key, workspace, p).Ok? && (c == DELIVERY || c == ENDPOINT)
    ensures Decode(c, mac, key, workspace, Encode(c, mac, key, workspace, p).value) == Ok(Some(p))
       <==> IsInt64(p.createdAt)
  {
    EncodedDecodes(c, mac, key, workspace, p);
    Int64RoundTrip(p.createdAt);
  }

  /** Two particular texts do not share a tag by accident; no MAC promises this for all pairs of texts. */
  predicate NoCollision(mac: Mac, key: Digest, a: Bytes, b: Bytes) {
    mac(key, a) == mac(key, b) ==> a == b
  }

  /** What a tag is computed over. */
  function Tagged(c: Codec, payload: Bytes): Bytes {
    Ascii(c.domain) + payload
  }

  /**
   * Unless the two texts collide, an accepted cursor that carries the tag of an issued one was issued for
   * this very list, workspace and position.
   */
  lemma AcceptedWasIssued(
      c: Codec, c': Codec, mac: Mac, key: Digest, workspace: Uuid, raw: string, workspace': Uuid, p': Position)
    requires (c == DELIVERY || c == ENDPOINT) && (c' == DELIVERY || c' == ENDPOINT)
    requires Decode(c, mac, key, workspace, raw).Ok? && raw != ""
    requires Encode(c', mac, key, workspace', p').Ok?
    requires Base64Url.Decode(raw).value[PAYLOAD_SIZE..] == Tag(c', mac, key, Payload(workspace', p'))
    requires NoCollision(mac, key, Tagged(c, Base64Url.Decode(raw).value[..PAYLOAD_SIZE]),
                         Tagged(c', Payload(workspace', p')))
    ensures c == c' && workspace == workspace'
    ensures Decode(c, mac, key, workspace, raw) == Ok(Some(Wrapped(p')))
  {
    var b := Base64Url.Decode(raw).value;
    var payload, payload' := b[..PAYLOAD_SIZE], Payload(workspace', p');
    var tag := Tag(c', mac, key, payload');
    assert Ascii(c.domain) + payload == Ascii(c'.domain) + payload';
    LabelsDiffer(c, c', payload, payload');
    assert b == payload' + tag;
    PayloadFields(workspace', p', tag);
    ReadBack(workspace', p', tag);
    Pow256Of16();
    PutGet(workspace, 16);
    PutGet(workspace', 16);
  }

  lemma LabelsDiffer(c: Codec, c': Codec, a: Bytes, b: Bytes)
    requires (c == DELIVERY || c == ENDPOINT) && (c' == DELIVERY || c' == ENDPOINT)
    requires Ascii(c.domain) + a == Ascii(c'.domain) + b
    ensures c == c' && a == b
  {
    var x, y := Ascii(c.domain), Ascii(c'.domain);
    assert x[0] == (x + a)[0] && y[0] == (y + b)[0];
    assert 'd' as int == 100 && 'e' as int == 101;
    assert a == (x + a)[|x|..] && b == (y + b)[|y|..];
  }

  /** The 73 bytes of a cursor: version, workspace, instant, id, and the tag of those under the list's label. */
  ghost predicate Layout(c: Codec, mac: Mac, key: Digest, workspace: Uuid, instant: nat, id: Uuid, b: Bytes) {
    var listText := if c == DELIVERY then "delivery-cursor:v1\n" else "endpoint-cursor:v1\n";
    && |b| == 73 && b[0] == 1
    && Get(b[1..17]) == workspace && Get(b[17..25]) == instant && Get(b[25..41]) == id
    && b[41..] == mac(key, Ascii(listText) + b[..41])
  }

  lemma NotZero(key: Digest)
    ensures key != ZERO_KEY <==> exists i :: 0 <= i < 32 && key[i] != 0
  {
    assert |ZERO_KEY| == 32 && forall i :: 0 <= i < 32 ==> ZERO_KEY[i] == 0;
  }

  lemma SameNumber(b: Bytes, workspace: Uuid)
    requires |b| == 16
    ensures b == Put(workspace, 16) <==> Get(b) == workspace
  {
    GetPut(b);
    Pow256Of16();
    PutGet(workspace, 16);
  }

  /**
   * Exactly these texts are accepted for a position: the canonical cursor bytes with this workspace, this id
   * other than nil and this instant read as a signed 64-bit number, tagged under the key and the list's own
   * label; within 256 characters for deliveries.
   */
  lemma AcceptedExact(c: Codec, mac: Mac, key: Digest, workspace: Uuid, raw: string, p: Position)
    requires c == DELIVERY || c == ENDPOINT
    ensures Decode(c, mac, key, workspace, raw) == Ok(Some(p)) <==>
      && raw != "" && (c == DELIVERY ==> |raw| <= 256)
      && workspace != 0 && p.id != 0 && (exists i :: 0 <= i < 32 && key[i] != 0)
      && Base64Url.Decode(raw).Some?
      && exists instant :: Layout(c, mac, key, workspace, instant, p.id, Base64Url.Decode(raw).value)
                           && p.createdAt == ToInt64(instant)
  {
    NotZero(key);
    if Base64Url.Decode(raw).Some? && |Base64Url.Decode(raw).value| == CURSOR_SIZE {
      var b := Base64Url.Decode(raw).value;
      SameNumber(b[1..17], workspace);
      IdBound(b[25..41]);
      hide Base64Url.Decode, Get, Put;
      assert ToInt64(Get(b[17..25])) != ZERO_TIME;
      assert c == DELIVERY ==> c != ENDPOINT by { LabelsApart(); }
      assert Layout(c, mac, key, workspace, Get(b[17..25]), Get(b[25..41]), b) <==>
        b[0] == 1 && Get(b[1..17]) == workspace && b[41..] == Tag(c, mac, key, b[..41]);
    }
  }

  lemma LabelsApart()
    ensures DELIVERY != ENDPOINT
  {
    assert DELIVERY.maxText.Some? && ENDPOINT.maxText.None?;
  }

  /** The number of an instant: its low 64 bits. */
  ghost predicate LowBits(instant: nat, x: int) {
    instant < 18_446_744_073_709_551_616 && (instant - x) % 18_446_744_073_709_551_616 == 0
  }

  lemma PayloadLayout(c: Codec, mac: Mac, key: Digest, workspace: Uuid, p: Position)
    requires c == DELIVERY || c == ENDPOINT
    ensures LowBits(ToUint64(p.createdAt), p.createdAt)
    ensures Layout(c, mac, key, workspace, ToUint64(p.createdAt), p.id,
                   Payload(workspace, p) + Tag(c, mac, key, Payload(workspace, p)))
  {
    PayloadFields(workspace, p, Tag(c, mac, key, Payload(workspace, p)));
    Pow256Of8();
    Pow256Of16();
    PutGet(ToUint64(p.createdAt), 8);
    PutGet(p.id, 16);
    PutGet(workspace, 16);
    LabelsApart();
    hide Payload, Get, Put;
  }

  /** A cursor is issued for everything but nil ids, the zero time and an absent key, and it has that layout. */
  lemma IssuedExact(c: Codec, mac: Mac, key: Digest, workspace: Uuid, p: Position)
    requires c == DELIVERY || c == ENDPOINT
    ensures Encode(c, mac, key, workspace, p).Ok? <==>
      && workspace != 0 && p.id != 0 && p.createdAt != -62_135_596_800 * 1_000_000_000
      && exists i :: 0 <= i < 32 && key[i] != 0
    ensures Encode(c, mac, key, workspace, p).Ok? ==>
      exists b, instant: nat ::
        && Encode(c, mac, key, workspace, p).value == Base64Url.Encode(b)
        && Layout(c, mac, key, workspace, instant, p.id, b) && LowBits(instant, p.createdAt)
  {
    NotZero(key);
    PayloadLayout(c, mac, key, workspace, p);
    hide Payload, Base64Url.Encode, Layout, LowBits, Tag;
  }

  /** The encoder's buffer, filled field by field. */
  method FillPayload(workspace: Uuid, p: Position) returns (buffer: array<byte>)
    ensures fresh(buffer) && buffer[..] == Payload(workspace, p)
  {
    buffer := new byte[PAYLOAD_SIZE];
    buffer[0] := VERSION;
    Copy(buffer, 1, Put(workspace, 16));
    Copy(buffer, 17, Put(ToUint64(p.createdAt), 8));
    Copy(buffer, 25, Put(p.id, 16));
    assert buffer[..] == [VERSION] + buffer[1..17] + buffer[17..25] + buffer[25..41];
    assert buffer[1..17] == Put(workspace, 16) && buffer[17..25] == Put(ToUint64(p.createdAt), 8);
  }

  method Copy(a: array<byte>, at: nat, source: Bytes)
    requires at + |source| <= a.Length
    modifies a
    ensures forall i :: 0 <= i < |source| ==> a[at + i] == source[i]
    ensures forall i :: 0 <= i < a.Length && !(at <= i < at + |source|) ==> a[i] == old(a[i])
  {
    var i := 0;
    while i < |source|
      invariant 0 <= i <= |source|
      invariant forall j :: 0 <= j < i ==> a[at + j] == source[j]
      invariant forall j :: 0 <= j < a.Length && !(at <= j < at + i) ==> a[j] == old(a[j])
    {
      a[at + i] := source[i];
      i := i + 1;
    }
  }
}
