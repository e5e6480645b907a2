/** Sealing by the endpoint and event writers, and opening by the delivery worker. */
module ClaimCrypto {
  import opened Common
  import opened Cryptobox

  type Key = Digest

  /** AES-GCM, abstract: key, nonce, text, associated data. */
  datatype Aead = Aead(seal: (Key, Bytes, Bytes, Bytes) -> Bytes, open: (Key, Bytes, Bytes, Bytes) -> Option<Bytes>)

  /** The longest text the cipher takes. */
  const MAX_TEXT := 0xF_FFFF_FFE0

  /** What was sealed opens under the same key, nonce and associated data; the tag takes 16 bytes. */
  ghost predicate Opens(a: Aead) {
    forall k: Key, n: Bytes, p: Bytes, d: Bytes :: |n| == 12 && |p| <= MAX_TEXT ==>
      a.open(k, n, a.seal(k, n, p, d), d) == Some(p) && |a.seal(k, n, p, d)| == |p| + 16
  }

  /** A cipher of that shape exists, so what follows from Opens is not empty. */
  lemma OpensIsMet()
    ensures exists a :: Opens(a)
  {
    var tag: Bytes := [0, 0, 0, 0, 0, 0, 0, 0, 0, 0, 0, 0, 0, 0, 0, 0];
    var a := Aead(
      (k: Key, n: Bytes, p: Bytes, d: Bytes) => p + tag,
      (k: Key, n: Bytes, c: Bytes, d: Bytes) => if |c| < 16 then None else Some(c[..|c| - 16]));
    forall p: Bytes
      ensures (p + tag)[..|p + tag| - 16] == p
    {
    }
    assert Opens(a);
  }

  datatype Keyring = Keyring(primary: int, keys: map<int, Key>)

  datatype Envelope = Envelope(format: int, kek: int, nonce: Bytes, ciphertext: Bytes)

  const LEGACY_FORMAT := 1
  const FORMAT := 2

  function Seal(a: Aead, ring: Keyring, nonce: Bytes, plaintext: Bytes, aad: Bytes): Option<Envelope> {
    if ring.primary !in ring.keys then None
    else Some(Envelope(FORMAT, ring.primary, nonce, a.seal(ring.keys[ring.primary], nonce, plaintext, aad)))
  }

  predicate ValidEnvelope(e: Envelope) {
    (e.format == LEGACY_FORMAT || e.format == FORMAT) && e.kek > 0 && |e.nonce| == 12 && |e.ciphertext| >= 16
  }

  function Open(a: Aead, ring: Keyring, e: Envelope, aad: Bytes): Option<Bytes> {
    if !ValidEnvelope(e) || e.kek !in ring.keys then None
    else a.open(ring.keys[e.kek], e.nonce, e.ciphertext, aad)
  }

  /** An envelope opens exactly when it is well formed, its key is there and the cipher accepts it. */
  lemma OpenExact(a: Aead, ring: Keyring, e: Envelope, aad: Bytes, plaintext: Bytes)
    ensures Open(a, ring, e, aad) == Some(plaintext) <==>
      && e.format in {1, 2} && e.kek > 0 && |e.nonce| == 12 && |e.ciphertext| >= 16
      && e.kek in ring.keys
      && a.open(ring.keys[e.kek], e.nonce, e.ciphertext, aad) == Some(plaintext)
  {
  }

  // ----- the writers, each with the parts as it lists them

  datatype Destination = Destination(scheme: Bytes, host: Bytes, port: int, path: Bytes)

  function TargetAssociatedData(version: int, workspace: Bytes, endpoint: Bytes, d: Destination): Bytes {
    if version == LEGACY_FORMAT then Aad([Ascii("1"), workspace, endpoint, d.scheme, d.host, Port(d.port)])
    else Aad([Ascii("2"), workspace, Ascii("endpoint_target"), endpoint, d.scheme, d.host, Port(d.port)])
  }

  function SecretAssociatedData(version: int, workspace: Bytes, endpoint: Bytes, secretId: Bytes, keyId: Bytes): Bytes {
    if version == LEGACY_FORMAT then Aad([Ascii("1"), workspace, endpoint, secretId, keyId])
    else Aad([Ascii("2"), workspace, Ascii("signing_secret"), endpoint, secretId, keyId])
  }

  /** The signing secret of an endpoint, at its creation and at every rotation. */
  function SealSecret(a: Aead, ring: Keyring, nonce: Bytes, workspace: Bytes, endpoint: Bytes, secretId: Bytes,
                      keyId: Bytes, secret: Bytes): Option<Envelope>
  {
    Seal(a, ring, nonce, secret, SecretAssociatedData(FORMAT, workspace, endpoint, secretId, keyId))
  }

  /** Endpoint creation: the path and the signing secret, each in its context. */
  function SealRecord(a: Aead, ring: Keyring, nonces: (Bytes, Bytes), workspace: Bytes, id: Bytes, secretId: Bytes,
                      keyId: Bytes, d: Destination, secret: Bytes): (Option<Envelope>, Option<Envelope>)
  {
    (Seal(a, ring, nonces.0, d.path, TargetAssociatedData(FORMAT, workspace, id, d)),
     SealSecret(a, ring, nonces.1, workspace, id, secretId, keyId, secret))
  }

  function SealEvent(a: Aead, ring: Keyring, nonce: Bytes, workspace: Bytes, id: Bytes, eventType: Bytes, raw: Bytes)
    : Option<Envelope>
  {
    Seal(a, ring, nonce, raw, Aad([Ascii("2"), workspace, Ascii("event_payload"), id, eventType]))
  }

  // ----- the reader

  datatype ClaimSecret = ClaimSecret(keyId: Bytes, version: Bytes, envelope: Envelope)

  datatype Claim = Claim(
    workspace: Bytes, event: Bytes, endpoint: Bytes, scheme: Bytes, host: Bytes, port: int, eventType: Bytes,
    target: Envelope, payload: Envelope, current: ClaimSecret, retiring: Option<ClaimSecret>)

  function Legacy(e: Envelope): bool {
    e.format == LEGACY_FORMAT
  }

  function TargetContext(c: Claim): Context {
    Target(Legacy(c.target), c.workspace, c.endpoint, c.scheme, c.host, c.port)
  }

  function PayloadContext(c: Claim): Context {
    Payload(Legacy(c.payload), c.workspace, c.event, c.eventType)
  }

  function SecretContext(c: Claim, s: ClaimSecret): Context {
    Secret(Legacy(s.envelope), c.workspace, c.endpoint, s.version, s.keyId)
  }

  function TargetAad(c: Claim): Bytes {
    if c.target.format == LEGACY_FORMAT
    then Aad([Ascii("1"), c.workspace, c.endpoint, c.scheme, c.host, Port(c.port)])
    else Aad([Ascii("2"), c.workspace, Ascii("endpoint_target"), c.endpoint, c.scheme, c.host, Port(c.port)])
  }

  function PayloadAad(c: Claim): Bytes {
    if c.payload.format == LEGACY_FORMAT then Aad([Ascii("1"), c.workspace, c.event, c.eventType])
    else Aad([Ascii("2"), c.workspace, Ascii("event_payload"), c.event, c.eventType])
  }

  function SecretEnvelopeAad(version: int, workspace: Bytes, endpoint: Bytes, secretId: Bytes, keyId: Bytes): Bytes {
    if version == LEGACY_FORMAT then Aad([Ascii("1"), workspace, endpoint, secretId, keyId])
    else Aad([Ascii("2"), workspace, Ascii("signing_secret"), endpoint, secretId, keyId])
  }

  function SecretAad(c: Claim, s: ClaimSecret): Bytes {
    SecretEnvelopeAad(s.envelope.format, c.workspace, c.endpoint, s.version, s.keyId)
  }

  /** The reader's four lists of parts are those of the contexts. */
  lemma ReadInContext(c: Claim, s: ClaimSecret)
    ensures TargetAad(c) == Aad(Parts(TargetContext(c)))
    ensures PayloadAad(c) == Aad(Parts(PayloadContext(c)))
    ensures SecretAad(c, s) == Aad(Parts(SecretContext(c, s)))
  {
    hide Aad, Port;
  }

  /** The writers' lists of parts are those of contexts of the current format. */
  lemma WrittenInContext(workspace: Bytes, id: Bytes, d: Destination, secretId: Bytes, keyId: Bytes, eventType: Bytes)
    ensures TargetAssociatedData(FORMAT, workspace, id, d)
         == Aad(Parts(Target(false, workspace, id, d.scheme, d.host, d.port)))
    ensures SecretAssociatedData(FORMAT, workspace, id, secretId, keyId)
         == Aad(Parts(Secret(false, workspace, id, secretId, keyId)))
    ensures Aad([Ascii("2"), workspace, Ascii("event_payload"), id, eventType])
         == Aad(Parts(Payload(false, workspace, id, eventType)))
  {
    hide Aad, Port;
  }

  datatype Opened = Opened(path: Bytes, payload: Bytes, secret: Bytes, retiring: Option<Bytes>)

  datatype Materials = Materials(signing: Keyring, payload: Keyring)

  function OpenClaim(a: Aead, m: Materials, c: Claim): Result<Opened, string> {
    var path := Open(a, m.signing, c.target, TargetAad(c));
    if path.None? then Err("decrypt_target")
    else
      var payload := Open(a, m.payload, c.payload, PayloadAad(c));
      if payload.None? then Err("decrypt_payload")
      else
        var secret := Open(a, m.signing, c.current.envelope, SecretAad(c, c.current));
        if secret.None? then Err("decrypt_secret")
        else if c.retiring.None? then Ok(Opened(path.value, payload.value, secret.value, None))
        else
          var prior := Open(a, m.signing, c.retiring.value.envelope, SecretAad(c, c.retiring.value));
          if prior.None? then Err("decrypt_secret")
          else Ok(Opened(path.value, payload.value, secret.value, prior))
  }

  // ----- what opens

  /** An envelope sealed in a context, in that context's format, under a key the ring still has. */
  ghost predicate Written(a: Aead, ring: Keyring, e: Envelope, c: Context, plaintext: Bytes) {
    && e.format == (if c.legacy then LEGACY_FORMAT else FORMAT)
    && e.kek > 0 && e.kek in ring.keys && |e.nonce| == 12 && |plaintext| <= MAX_TEXT
    && e.ciphertext == a.seal(ring.keys[e.kek], e.nonce, plaintext, Aad(Parts(c)))
  }

  /**
   * This very envelope is not a forgery for this very context: under other associated data it does not
   * open. A cipher with a fixed tag cannot promise that for all data at once.
   */
  predicate NoForgery(a: Aead, ring: Keyring, e: Envelope, c: Context, d: Context) {
    e.kek in ring.keys && Aad(Parts(c)) != Aad(Parts(d)) ==>
      a.open(ring.keys[e.kek], e.nonce, e.ciphertext, Aad(Parts(d))) == None
  }

  /** Sealing writes, for every ring that keeps the key under its number, whatever its primary has become. */
  lemma SealWrites(a: Aead, ring: Keyring, later: Keyring, nonce: Bytes, plaintext: Bytes, c: Context)
    requires !c.legacy && KeepsPrimary(ring, later) && |nonce| == 12 && |plaintext| <= MAX_TEXT
    ensures Seal(a, ring, nonce, plaintext, Aad(Parts(c))).Some?
    ensures Written(a, later, Seal(a, ring, nonce, plaintext, Aad(Parts(c))).value, c, plaintext)
  {
    hide Aad, Parts;
  }

  predicate KeepsPrimary(ring: Keyring, later: Keyring) {
    && ring.primary > 0 && ring.primary in ring.keys
    && ring.primary in later.keys && later.keys[ring.primary] == ring.keys[ring.primary]
  }

  /** In its own context a written envelope opens to its plaintext. */
  lemma WrittenOpens(a: Aead, ring: Keyring, e: Envelope, c: Context, plaintext: Bytes)
    requires Opens(a) && Written(a, ring, e, c, plaintext)
    ensures Open(a, ring, e, Aad(Parts(c))) == Some(plaintext)
  {
    hide Aad, Parts;
    var k, x := ring.keys[e.kek], Aad(Parts(c));
    assert a.open(k, e.nonce, a.seal(k, e.nonce, plaintext, x), x) == Some(plaintext);
  }

  /** A written envelope opens in a context of its format exactly when that is the context it was sealed in. */
  lemma OpensOnlyInContext(a: Aead, ring: Keyring, e: Envelope, c: Context, plaintext: Bytes, d: Context)
    requires Opens(a) && Written(a, ring, e, c, plaintext) && NoForgery(a, ring, e, c, d)
    requires Small(Parts(c)) && Small(Parts(d))
    ensures Open(a, ring, e, Aad(Parts(d))) == if c == d then Some(plaintext) else None
  {
    ContextsNeverCoincide(c, d);
    WrittenOpens(a, ring, e, c, plaintext);
    hide Aad, Parts, Small, Opens;
  }

  /** The four places an envelope of a claim was written, each with its own format and plaintext. */
  datatype Origin = Origin(context: Context, plaintext: Bytes)
  datatype Origins = Origins(target: Origin, payload: Origin, current: Origin, retiring: Option<Origin>)

  /** Written somewhere, and no forgery for where it is now read. */
  ghost predicate Genuine(a: Aead, ring: Keyring, e: Envelope, o: Origin, d: Context) {
    && Written(a, ring, e, o.context, o.plaintext) && NoForgery(a, ring, e, o.context, d)
    && Small(Parts(o.context)) && Small(Parts(d))
  }

  ghost predicate GenuineClaim(a: Aead, m: Materials, c: Claim, o: Origins) {
    && Genuine(a, m.signing, c.target, o.target, TargetContext(c))
    && Genuine(a, m.payload, c.payload, o.payload, PayloadContext(c))
    && Genuine(a, m.signing, c.current.envelope, o.current, SecretContext(c, c.current))
    && (c.retiring.Some? <==> o.retiring.Some?)
    && (c.retiring.Some? ==>
          Genuine(a, m.signing, c.retiring.value.envelope, o.retiring.value, SecretContext(c, c.retiring.value)))
  }

  /** What opening must give: the sealed texts if every envelope belongs where it is, else the first misplaced one. */
  function Verdict(c: Claim, o: Origins): Result<Opened, string>
    requires c.retiring.Some? <==> o.retiring.Some?
  {
    if o.target.context != Target(c.target.format == 1, c.workspace, c.endpoint, c.scheme, c.host, c.port)
    then Err("decrypt_target")
    else if o.payload.context != Payload(c.payload.format == 1, c.workspace, c.event, c.eventType)
    then Err("decrypt_payload")
    else if o.current.context
         != Secret(c.current.envelope.format == 1, c.workspace, c.endpoint, c.current.version, c.current.keyId)
    then Err("decrypt_secret")
    else if c.retiring.None? then Ok(Opened(o.target.plaintext, o.payload.plaintext, o.current.plaintext, None))
    else
      var prior := c.retiring.value;
      if o.retiring.value.context
         != Secret(prior.envelope.format == 1, c.workspace, c.endpoint, prior.version, prior.keyId)
      then Err("decrypt_secret")
      else
        Ok(Opened(o.target.plaintext, o.payload.plaintext, o.current.plaintext, Some(o.retiring.value.plaintext)))
  }

  lemma GenuineOpens(a: Aead, ring: Keyring, e: Envelope, o: Origin, d: Context)
    requires Opens(a) && Genuine(a, ring, e, o, d)
    ensures Open(a, ring, e, Aad(Parts(d))) == if o.context == d then Some(o.plaintext) else None
  {
    hide Aad, Parts, Small, Opens, Written, NoForgery;
    OpensOnlyInContext(a, ring, e, o.context, o.plaintext, d);
  }

  /**
   * For any mix of formats: a claim opens to the sealed texts if and only if each envelope was sealed
   * for this workspace, endpoint, event, kind and column values; otherwise the first misplaced one is named.
   */
  lemma ClaimOpensExactly(a: Aead, m: Materials, c: Claim, o: Origins)
    requires Opens(a) && GenuineClaim(a, m, c, o)
    ensures OpenClaim(a, m, c) == Verdict(c, o)
  {
    hide Opens, Genuine, Open, Aad, Parts, TargetAad, PayloadAad, SecretAad;
    ReadInContext(c, c.current);
    GenuineOpens(a, m.signing, c.target, o.target, TargetContext(c));
    GenuineOpens(a, m.payload, c.payload, o.payload, PayloadContext(c));
    GenuineOpens(a, m.signing, c.current.envelope, o.current, SecretContext(c, c.current));
    if c.retiring.Some? {
      ReadInContext(c, c.retiring.value);
      GenuineOpens(a, m.signing, c.retiring.value.envelope, o.retiring.value, SecretContext(c, c.retiring.value));
    }
  }

  /** What was sealed under one ring in a context of the current format opens there under a later one. */
  lemma SealedOpens(a: Aead, ring: Keyring, later: Keyring, nonce: Bytes, plaintext: Bytes, c: Context, e: Envelope)
    requires Opens(a) && !c.legacy && KeepsPrimary(ring, later) && |nonce| == 12 && |plaintext| <= MAX_TEXT
    requires Some(e) == Seal(a, ring, nonce, plaintext, Aad(Parts(c)))
    ensures e.format == FORMAT && Open(a, later, e, Aad(Parts(c))) == Some(plaintext)
  {
    SealWrites(a, ring, later, nonce, plaintext, c);
    hide Aad, Parts, Opens;
    WrittenOpens(a, later, e, c, plaintext);
  }

  /** A secret sealed for an endpoint opens as any of its claim's secrets with that version and key id. */
  lemma SecretOpens(a: Aead, ring: Keyring, later: Keyring, nonce: Bytes, c: Claim, s: ClaimSecret, secret: Bytes)
    requires Opens(a) && KeepsPrimary(ring, later) && |nonce| == 12 && |secret| <= MAX_TEXT
    requires Some(s.envelope) == SealSecret(a, ring, nonce, c.workspace, c.endpoint, s.version, s.keyId, secret)
    ensures Open(a, later, s.envelope, SecretAad(c, s)) == Some(secret)
  {
    var d := Destination([], [], 0, []);
    WrittenInContext(c.workspace, c.endpoint, d, s.version, s.keyId, []);
    ReadInContext(c, s);
    assert s.envelope.format == FORMAT;
    var context := Secret(false, c.workspace, c.endpoint, s.version, s.keyId);
    assert SecretContext(c, s) == context;
    hide Aad, Parts, Opens, Open, Seal, SecretAad, SecretAssociatedData;
    SealedOpens(a, ring, later, nonce, secret, context, s.envelope);
  }

  /** What rows must hold for a claim to be as the writers left it. */
  ghost predicate FromWriters(a: Aead, writer: Materials, older: Keyring, nonces: seq<Bytes>, c: Claim, d: Destination,
                              secret: Bytes, prior: Bytes, raw: Bytes)
    requires |nonces| == 4
  {
    var sealed := SealRecord(a, writer.signing, (nonces[0], nonces[1]), c.workspace, c.endpoint,
                             c.current.version, c.current.keyId, d, secret);
    && (c.scheme, c.host, c.port) == (d.scheme, d.host, d.port)
    && Some(c.target) == sealed.0 && Some(c.current.envelope) == sealed.1
    && Some(c.payload) == SealEvent(a, writer.payload, nonces[2], c.workspace, c.event, c.eventType, raw)
    && (c.retiring.Some? ==>
          Some(c.retiring.value.envelope) == SealSecret(a, older, nonces[3], c.workspace, c.endpoint,
                                                        c.retiring.value.version, c.retiring.value.keyId, prior))
  }

  /**
   * End to end: what endpoint creation, secret rotation and publishing sealed, each at its time, the worker
   * opens, even after key rotation; a retiring secret under its own version and key id.
   */
  lemma WrittenRowsOpen(a: Aead, writer: Materials, older: Keyring, reader: Materials, nonces: seq<Bytes>, c: Claim,
                        d: Destination, secret: Bytes, prior: Bytes, raw: Bytes)
    requires Opens(a) && |nonces| == 4 && forall i :: 0 <= i < 4 ==> |nonces[i]| == 12
    requires |d.path| <= MAX_TEXT && |secret| <= MAX_TEXT && |prior| <= MAX_TEXT && |raw| <= MAX_TEXT
    requires KeepsPrimary(writer.signing, reader.signing) && KeepsPrimary(writer.payload, reader.payload)
    requires KeepsPrimary(older, reader.signing)
    requires FromWriters(a, writer, older, nonces, c, d, secret, prior, raw)
    ensures OpenClaim(a, reader, c) == Ok(Opened(d.path, raw, secret, if c.retiring.Some? then Some(prior) else None))
  {
    hide Opens, Aad, Parts, KeepsPrimary, Open;
    SecretOpens(a, writer.signing, reader.signing, nonces[1], c, c.current, secret);
    if c.retiring.Some? {
      SecretOpens(a, older, reader.signing, nonces[3], c, c.retiring.value, prior);
    }
    WrittenInContext(c.workspace, c.endpoint, d, [], [], []);
    WrittenInContext(c.workspace, c.event, d, [], [], c.eventType);
    ReadInContext(c, c.current);
    SealedOpens(a, writer.signing, reader.signing, nonces[0], d.path,
                Target(false, c.workspace, c.endpoint, d.scheme, d.host, d.port), c.target);
    SealedOpens(a, writer.payload, reader.payload, nonces[2], raw,
                Payload(false, c.workspace, c.event, c.eventType), c.payload);
    assert TargetContext(c) == Target(false, c.workspace, c.endpoint, d.scheme, d.host, d.port);
    assert PayloadContext(c) == Payload(false, c.workspace, c.event, c.eventType);
    hide Seal, TargetAad, PayloadAad, SecretAad;
  }
}
