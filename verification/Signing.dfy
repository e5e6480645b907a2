/** The signed text, the one- or two-entry signature header, and its verification. */
module Signing {
  import opened Common
  import opened Text
  import Base64Url
  import BigEndian
  import JsonDecode

  /** HMAC-SHA256, uninterpreted. Texts have one char per byte. */
  type Mac = (Bytes, string) -> Digest

  function Canonical(timestamp: int, event: string, delivery: string, keyId: string, body: string): string {
    "v1\n" + (Decimal(timestamp) + "\n" + (event + "\n" + (delivery + "\n" + (keyId + "\n" + body))))
  }

  function Sign(mac: Mac, secret: Bytes, timestamp: int, event: string, delivery: string, keyId: string, body: string)
    : string
  {
    Base64Url.Encode(mac(secret, Canonical(timestamp, event, delivery, keyId, body)))
  }

  /** What the fingerprint of a published event is computed over. */
  function FingerprintText(eventType: string, canonical: string): string {
    "v1\n" + (eventType + "\n" + ("all\n" + canonical))
  }

  predicate OneLine(s: string) {
    forall i :: 0 <= i < |s| ==> s[i] != '\n'
  }

  lemma CutEqual(a: string, x: string, b: string, y: string)
    requires OneLine(a) && OneLine(b) && a + "\n" + x == b + "\n" + y
    ensures a == b && x == y
  {
    IndexUnique(a, '\n', x);
    IndexUnique(b, '\n', y);
    var s := a + ['\n'] + x;
    assert s == b + ['\n'] + y;
    assert a == s[..|a|] && b == s[..|b|] && x == s[|a| + 1..] && y == s[|b| + 1..];
  }

  lemma SamePrefix(p: string, a: string, b: string)
    requires p + a == p + b
    ensures a == b
  {
    assert a == (p + a)[|p|..] && b == (p + b)[|p|..];
  }

  /** With single-line identifiers the signed text determines every field, the body included. */
  lemma CanonicalInjective(t: int, e: string, d: string, k: string, b: string,
                           t': int, e': string, d': string, k': string, b': string)
    requires OneLine(e) && OneLine(d) && OneLine(k) && OneLine(e') && OneLine(d') && OneLine(k')
    ensures Canonical(t, e, d, k, b) == Canonical(t', e', d', k', b') <==> (t, e, d, k, b) == (t', e', d', k', b')
  {
    if Canonical(t, e, d, k, b) == Canonical(t', e', d', k', b') {
      DecimalShape(t);
      DecimalShape(t');
      hide Decimal;
      var x3, x3' := k + "\n" + b, k' + "\n" + b';
      var x2, x2' := d + "\n" + x3, d' + "\n" + x3';
      var x1, x1' := e + "\n" + x2, e' + "\n" + x2';
      SamePrefix("v1\n", Decimal(t) + "\n" + x1, Decimal(t') + "\n" + x1');
      CutEqual(Decimal(t), x1, Decimal(t'), x1');
      CutEqual(e, x2, e', x2');
      CutEqual(d, x3, d', x3');
      CutEqual(k, b, k', b');
      DecimalInjective(t, t');
    }
  }

  /** With a line break in an identifier two different deliveries sign the same text. */
  lemma LineBreaksAreAmbiguous(t: int, a: string, b: string, d: string, k: string, body: string)
    ensures Canonical(t, a + "\n" + b, d, k, body) == Canonical(t, a, b, d, k + "\n" + body)
  {
    hide Decimal;
    var rest := d + "\n" + (k + "\n" + body);
    assert (a + "\n" + b) + "\n" + rest == a + "\n" + (b + "\n" + rest);
  }

  lemma TypeIsOneLine(eventType: string)
    requires JsonDecode.MatchesPattern(eventType)
    ensures OneLine(eventType)
  {
  }

  /** For acceptable event types the fingerprint text determines type and canonical payload. */
  lemma FingerprintInjective(t: string, c: string, t': string, c': string)
    requires JsonDecode.MatchesPattern(t) && JsonDecode.MatchesPattern(t')
    ensures FingerprintText(t, c) == FingerprintText(t', c') <==> t == t' && c == c'
  {
    TypeIsOneLine(t);
    TypeIsOneLine(t');
    hide JsonDecode.MatchesPattern, OneLine;
    if FingerprintText(t, c) == FingerprintText(t', c') {
      SamePrefix("v1\n", t + "\n" + ("all\n" + c), t' + "\n" + ("all\n" + c'));
      CutEqual(t, "all\n" + c, t', "all\n" + c');
      SamePrefix("all\n", c, c');
    }
  }

  lemma FourLines(a: string, b: string, c: string, d: string)
    ensures Join([a, b, c, d], '\n') == a + "\n" + (b + "\n" + (c + "\n" + d))
  {
    assert [a, b, c, d][1..] == [b, c, d] && [b, c, d][1..] == [c, d] && [c, d][1..] == [d];
    assert Join([d], '\n') == d;
    assert Join([c, d], '\n') == c + "\n" + d;
    assert Join([b, c, d], '\n') == b + "\n" + (c + "\n" + d);
  }

  /** What is signed, line by line; and what is fingerprinted. */
  lemma SignedLines(t: int, e: string, d: string, k: string, b: string, eventType: string)
    ensures Canonical(t, e, d, k, b) == Join(["v1", Decimal(t), e, Join([d, k, b], '\n')], '\n')
    ensures Join([d, k, b], '\n') == d + "\n" + (k + "\n" + b)
    ensures FingerprintText(eventType, b) == Join(["v1", eventType, "all", b], '\n')
  {
    hide Decimal;
    FourLines("v1", Decimal(t), e, Join([d, k, b], '\n'));
    FourLines("v1", eventType, "all", b);
    assert [d, k, b][1..] == [k, b] && [k, b][1..] == [b];
    assert Join([b], '\n') == b && Join([k, b], '\n') == k + "\n" + b;
    var rest := d + "\n" + (k + "\n" + b);
    assert "v1" + "\n" == "v1\n" && "all" + "\n" == "all\n";
  }

  // ----- the header

  function HeaderValue(keyId: string, signature: string): string {
    "key_id=" + keyId + ",v1=" + signature
  }

  /** The ASCII blanks. */
  predicate Blank(c: char) {
    0x09 <= c as int <= 0x0D || c == ' '
  }

  /** The other Unicode blanks, each in its two or three bytes of UTF-8. */
  predicate Blank2(a: char, b: char) {
    a as int == 0xC2 && (b as int == 0x85 || b as int == 0xA0)
  }

  predicate Blank3(a: char, b: char, c: char) {
    var x, y, z := a as int, b as int, c as int;
    || (x == 0xE1 && y == 0x9A && z == 0x80)
    || (x == 0xE2 && y == 0x80 && (0x80 <= z <= 0x8A || z == 0xA8 || z == 0xA9 || z == 0xAF))
    || (x == 0xE2 && y == 0x81 && z == 0x9F)
    || (x == 0xE3 && y == 0x80 && z == 0x80)
  }

  /** The bytes of the blank a text starts with, or 0. */
  function BlankAtStart(s: string): (n: nat)
    ensures n <= |s|
  {
    if |s| >= 1 && Blank(s[0]) then 1
    else if |s| >= 2 && Blank2(s[0], s[1]) then 2
    else if |s| >= 3 && Blank3(s[0], s[1], s[2]) then 3
    else 0
  }

  /** The bytes of the blank a text ends with, or 0. */
  function BlankAtEnd(s: string): (n: nat)
    ensures n <= |s|
  {
    var k := |s|;
    if k >= 1 && Blank(s[k - 1]) then 1
    else if k >= 2 && Blank2(s[k - 2], s[k - 1]) then 2
    else if k >= 3 && Blank3(s[k - 3], s[k - 2], s[k - 1]) then 3
    else 0
  }

  function TrimSpace(s: string): string
    decreases |s|
  {
    if BlankAtStart(s) > 0 then TrimSpace(s[BlankAtStart(s)..])
    else if BlankAtEnd(s) > 0 then TrimSpace(s[..|s| - BlankAtEnd(s)])
    else s
  }

  function CutPrefix(s: string, p: string): Option<string> {
    if |p| <= |s| && s[..|p|] == p then Some(s[|p|..]) else None
  }

  function EntrySignature(entry: string, keyId: string): Option<string> {
    var parts := Split(TrimSpace(entry), ',');
    if |parts| != 2 then None
    else
      var kid, sig := CutPrefix(parts[0], "key_id="), CutPrefix(parts[1], "v1=");
      if kid.Some? && sig.Some? && kid.value == keyId && kid.value != "" && sig.value != "" then sig else None
  }

  function FirstSignature(entries: seq<string>, keyId: string): Option<string> {
    if entries == [] then None
    else if EntrySignature(entries[0], keyId).Some? then EntrySignature(entries[0], keyId)
    else FirstSignature(entries[1..], keyId)
  }

  method SignatureForKey(value: string, keyId: string) returns (r: Option<string>)
    ensures r == FirstSignature(Split(value, ';'), keyId)
  {
    hide EntrySignature;
    var entries := Split(value, ';');
    var i := 0;
    while i < |entries|
      invariant 0 <= i <= |entries| && FirstSignature(entries[i..], keyId) == FirstSignature(entries, keyId)
    {
      var signature := EntrySignature(entries[i], keyId);
      if signature.Some? {
        return signature;
      }
      assert entries[i..][1..] == entries[i + 1..];
      i := i + 1;
    }
    return None;
  }

  predicate Free(s: string, c: char) {
    forall i :: 0 <= i < |s| ==> s[i] != c
  }

  /** A key id or signature that the header's syntax leaves whole. */
  predicate Plain(s: string) {
    s != "" && Free(s, ',') && Free(s, ';')
  }

  /** A signature ends in a visible ASCII character, as base64url text does. */
  predicate PlainSignature(s: string) {
    Plain(s) && '!' <= s[|s| - 1] <= '~'
  }

  lemma EntryIsTrimmed(k: string, s: string)
    requires PlainSignature(s)
    ensures TrimSpace(HeaderValue(k, s)) == HeaderValue(k, s)
  {
    var entry := HeaderValue(k, s);
    assert entry[0] == 'k' && entry[|entry| - 1] == s[|s| - 1];
  }

  lemma EntrySplits(k: string, s: string)
    requires Plain(k) && Plain(s)
    ensures Split(HeaderValue(k, s), ',') == ["key_id=" + k, "v1=" + s]
  {
    var a, b := "key_id=" + k, "v1=" + s;
    assert HeaderValue(k, s) == a + "," + b;
    assert Join([a, b], ',') == a + "," + b by { assert [a, b][1..] == [b]; }
    SplitJoin([a, b], ',');
  }

  lemma EntryParses(k: string, s: string, keyId: string)
    requires Plain(k) && PlainSignature(s)
    ensures EntrySignature(HeaderValue(k, s), keyId) == if k == keyId then Some(s) else None
    ensures Free(HeaderValue(k, s), ';')
  {
    EntryIsTrimmed(k, s);
    EntrySplits(k, s);
    assert Free(HeaderValue(k, s), ';');
    hide HeaderValue, TrimSpace, Split;
    assert CutPrefix("key_id=" + k, "key_id=") == Some(k) && CutPrefix("v1=" + s, "v1=") == Some(s);
  }

  /** Key ids with their signatures, in header order. */
  type Entries = seq<(string, string)>

  predicate PlainEntries(es: Entries) {
    forall i :: 0 <= i < |es| ==> Plain(es[i].0) && PlainSignature(es[i].1)
  }

  function Values(es: Entries): (r: seq<string>)
    ensures |r| == |es| && forall i :: 0 <= i < |es| ==> r[i] == HeaderValue(es[i].0, es[i].1)
  {
    if es == [] then [] else [HeaderValue(es[0].0, es[0].1)] + Values(es[1..])
  }

  function Lookup(es: Entries, keyId: string): Option<string> {
    if es == [] then None else if es[0].0 == keyId then Some(es[0].1) else Lookup(es[1..], keyId)
  }

  lemma {:induction false} ValuesLookUp(es: Entries, keyId: string)
    requires PlainEntries(es)
    ensures FirstSignature(Values(es), keyId) == Lookup(es, keyId)
  {
    hide EntrySignature, HeaderValue, Plain, PlainSignature;
    if es != [] {
      EntryParses(es[0].0, es[0].1, keyId);
      ValuesLookUp(es[1..], keyId);
      assert Values(es)[1..] == Values(es[1..]);
    }
  }

  /** A joined header gives back, for every key id, exactly its own signature. */
  lemma HeaderParses(es: Entries, keyId: string)
    requires es != [] && PlainEntries(es)
    ensures FirstSignature(Split(Join(Values(es), ';'), ';'), keyId) == Lookup(es, keyId)
  {
    forall i | 0 <= i < |es|
      ensures ';' !in Values(es)[i]
    {
      EntryParses(es[i].0, es[i].1, keyId);
    }
    hide EntrySignature, HeaderValue, Plain, PlainSignature;
    SplitJoin(Values(es), ';');
    ValuesLookUp(es, keyId);
  }

  // ----- a request, and its verification

  datatype Signer = Signer(keyId: string, secret: Bytes)

  datatype Delivery = Delivery(timestamp: int, event: string, delivery: string, body: string)

  function SignatureOf(mac: Mac, s: Signer, d: Delivery): string {
    Sign(mac, s.secret, d.timestamp, d.event, d.delivery, s.keyId, d.body)
  }

  function EntryOf(mac: Mac, s: Signer, d: Delivery): (string, string) {
    (s.keyId, SignatureOf(mac, s, d))
  }

  /** The worker signs with the current key, and with the retiring one if there is one. */
  function BuildHeader(mac: Mac, current: Signer, retiring: Option<Signer>, d: Delivery): string {
    Join(Values(if retiring.None? then [EntryOf(mac, current, d)]
                else [EntryOf(mac, current, d), EntryOf(mac, retiring.value, d)]), ';')
  }

  /** Key ids that the header's syntax leaves whole, and that differ. */
  predicate PlainKeys(current: Signer, retiring: Option<Signer>) {
    Plain(current.keyId) && (retiring.Some? ==> Plain(retiring.value.keyId) && retiring.value.keyId != current.keyId)
  }

  const SECOND := 1_000_000_000
  const MINUTE := 60 * SECOND
  /** Seconds from the year 1, where instants are counted from, to 1970. */
  const EPOCH := 62_135_596_800

  function Wrap64(x: int): int {
    BigEndian.ToInt64(BigEndian.ToUint64(x))
  }

  /** The difference of two instants, saturated at 64 bits of nanoseconds. */
  function Delta(now: int, seconds: int): int {
    var d := now - Wrap64(seconds + EPOCH) * SECOND;
    if d < -TWO_63 then -TWO_63 else if d >= TWO_63 then TWO_63 - 1 else d
  }

  /** The skew check; negating the least 64-bit number gives it back. */
  predicate Fresh(now: int, maxSkew: int, seconds: int) {
    var d := Delta(now, seconds);
    (if d < 0 then Wrap64(-d) else d) <= maxSkew
  }

  /** The check passes for instants within the skew, and also for those 2^63 nanoseconds or more ahead. */
  lemma FreshExact(now: int, maxSkew: int, seconds: int)
    requires 0 < maxSkew <= 15 * MINUTE
    ensures var at := Wrap64(seconds + EPOCH) * SECOND;
      Fresh(now, maxSkew, seconds) <==> -maxSkew <= now - at <= maxSkew || at - now >= TWO_63
  {
    hide Wrap64;
    var d := Delta(now, seconds);
    WrapNegated(d);
  }

  /** A stamp of the year 2316, presented in 2023 with a skew of five minutes, passes. */
  lemma FutureStampIsFresh()
    ensures var seconds := 10_923_372_037;
      var now := (1_700_000_000 + EPOCH) * SECOND;
      && ParseInt(Decimal(seconds), 10) == Some(seconds)
      && Wrap64(seconds + EPOCH) * SECOND - now > 5 * MINUTE
      && Fresh(now, 5 * MINUTE, seconds)
  {
    DecimalParses(10_923_372_037);
    hide Decimal, ParseInt;
    BigEndian.Int64RoundTrip(10_923_372_037 + EPOCH);
    FreshExact((1_700_000_000 + EPOCH) * SECOND, 5 * MINUTE, 10_923_372_037);
  }

  lemma WrapNegated(d: int)
    requires -TWO_63 <= d < TWO_63
    ensures d < 0 ==> Wrap64(-d) == if d == -TWO_63 then -TWO_63 else -d
  {
    BigEndian.Int64RoundTrip(-d);
  }

  predicate Verify(mac: Mac, secret: Bytes, now: int, maxSkew: int, timestamp: string, event: string, delivery: string,
                   keyId: string, header: string, body: string)
  {
    if maxSkew <= 0 || maxSkew > 15 * MINUTE then false
    else
      var seconds := ParseInt(timestamp, 10);
      if seconds.None? || !Fresh(now, maxSkew, seconds.value) then false
      else
        var signature := FirstSignature(Split(header, ';'), keyId);
        if signature.None? then false
        else
          Base64Url.Decode(signature.value) == Some(mac(secret, Canonical(seconds.value, event, delivery, keyId, body)))
  }

  /**
   * What verifies: a skew of at most fifteen minutes, a timestamp that is a 64-bit number within it, and a
   * header whose first usable entry for the key id holds, in strict base64url, the digest of the signed text.
   */
  lemma VerifyExact(mac: Mac, secret: Bytes, now: int, maxSkew: int, timestamp: string, event: string,
                    delivery: string, keyId: string, header: string, body: string)
    ensures Verify(mac, secret, now, maxSkew, timestamp, event, delivery, keyId, header, body) <==>
      && 0 < maxSkew <= 900_000_000_000
      && exists seconds, entry ::
        && ParseInt(timestamp, 10) == Some(seconds) && Fresh(now, maxSkew, seconds)
        && FirstSignature(Split(header, ';'), keyId) == Some(entry)
        && Base64Url.Decode(entry) == Some(mac(secret, Canonical(seconds, event, delivery, keyId, body)))
  {
    hide ParseInt, Fresh, FirstSignature, Split, Base64Url.Decode, Canonical;
  }

  /** The first entry with this key id and a signature, read whole: `key_id=<id>,v1=<signature>` between blanks. */
  lemma EntryExact(entry: string, keyId: string, signature: string)
    ensures EntrySignature(entry, keyId) == Some(signature) <==>
      && keyId != "" && signature != "" && Free(keyId, ',') && Free(signature, ',')
      && TrimSpace(entry) == ("key_id=" + keyId) + "," + ("v1=" + signature)
  {
    hide TrimSpace, Free;
    if EntrySignature(entry, keyId) == Some(signature) {
      var parts := Split(TrimSpace(entry), ',');
      CutIs(parts[0], "key_id=", keyId);
      CutIs(parts[1], "v1=", signature);
      assert parts == [parts[0], parts[1]];
      UsableIsWhole(TrimSpace(entry), keyId, signature);
    }
    if Free(keyId, ',') && Free(signature, ',') {
      WholeSplits(keyId, signature);
      hide Split;
      assert CutPrefix("key_id=" + keyId, "key_id=") == Some(keyId);
      assert CutPrefix("v1=" + signature, "v1=") == Some(signature);
    }
  }

  lemma CutIs(s: string, p: string, rest: string)
    requires CutPrefix(s, p) == Some(rest)
    ensures s == p + rest
  {
  }

  lemma UsableIsWhole(text: string, keyId: string, signature: string)
    requires Split(text, ',') == ["key_id=" + keyId, "v1=" + signature]
    ensures Free(keyId, ',') && Free(signature, ',')
    ensures text == ("key_id=" + keyId) + "," + ("v1=" + signature)
  {
    var a, b := "key_id=" + keyId, "v1=" + signature;
    JoinSplit(text, ',');
    assert Join([a, b], ',') == a + "," + b by { assert [a, b][1..] == [b]; }
    assert Split(text, ',')[0] == a && Split(text, ',')[1] == b;
    FreeTail("key_id=", keyId);
    FreeTail("v1=", signature);
  }

  lemma WholeSplits(keyId: string, signature: string)
    requires Free(keyId, ',') && Free(signature, ',')
    ensures Split(("key_id=" + keyId) + "," + ("v1=" + signature), ',') == ["key_id=" + keyId, "v1=" + signature]
  {
    var a, b := "key_id=" + keyId, "v1=" + signature;
    assert Join([a, b], ',') == a + "," + b by { assert [a, b][1..] == [b]; }
    assert ',' !in a && ',' !in b;
    SplitJoin([a, b], ',');
  }

  lemma FreeTail(p: string, s: string)
    requires ',' !in p + s
    ensures Free(s, ',')
  {
    forall i | 0 <= i < |s|
      ensures s[i] != ','
    {
      assert (p + s)[|p| + i] == s[i];
    }
  }

  lemma SignatureIsPlain(mac: Mac, s: Signer, d: Delivery)
    ensures PlainSignature(SignatureOf(mac, s, d))
    ensures Base64Url.Decode(SignatureOf(mac, s, d)) ==
      Some(mac(s.secret, Canonical(d.timestamp, d.event, d.delivery, s.keyId, d.body)))
  {
    var digest := mac(s.secret, Canonical(d.timestamp, d.event, d.delivery, s.keyId, d.body));
    Base64Url.EncodedText(digest);
    Base64Url.RoundTrip(digest);
    hide Base64Url.Encode, Base64Url.Decode;
    var text := SignatureOf(mac, s, d);
    assert |text| == 43;
    assert forall i :: 0 <= i < |text| ==> text[i] != ',' && text[i] != ';' && '!' <= text[i] <= '~';
  }

  /** What the built header holds under a key id: the current signer's signature, then the retiring one's. */
  function HeldSignature(mac: Mac, current: Signer, retiring: Option<Signer>, d: Delivery, keyId: string)
    : Option<string>
  {
    if keyId == current.keyId then Some(SignatureOf(mac, current, d))
    else if retiring.Some? && keyId == retiring.value.keyId then Some(SignatureOf(mac, retiring.value, d))
    else None
  }

  lemma PairParses(a: (string, string), b: (string, string), keyId: string)
    requires Plain(a.0) && PlainSignature(a.1) && Plain(b.0) && PlainSignature(b.1)
    ensures FirstSignature(Split(Join(Values([a, b]), ';'), ';'), keyId)
         == if keyId == a.0 then Some(a.1) else if keyId == b.0 then Some(b.1) else None
    ensures FirstSignature(Split(Join(Values([a]), ';'), ';'), keyId) == if keyId == a.0 then Some(a.1) else None
  {
    hide Plain, PlainSignature, FirstSignature, Split, Join, Values;
    HeaderParses([a], keyId);
    HeaderParses([a, b], keyId);
    assert [a][1..] == [] && [a, b][1..] == [b] && [b][1..] == [];
  }

  lemma BuiltHeaderHolds(mac: Mac, current: Signer, retiring: Option<Signer>, d: Delivery, keyId: string)
    requires Plain(current.keyId) && (retiring.Some? ==> Plain(retiring.value.keyId))
    ensures FirstSignature(Split(BuildHeader(mac, current, retiring, d), ';'), keyId)
         == HeldSignature(mac, current, retiring, d, keyId)
  {
    var other := if retiring.None? then current else retiring.value;
    SignatureIsPlain(mac, current, d);
    SignatureIsPlain(mac, other, d);
    hide SignatureOf, PlainSignature, Plain, FirstSignature, Split, Join, Values;
    PairParses(EntryOf(mac, current, d), EntryOf(mac, other, d), keyId);
  }

  /**
   * During a rotation both keys work: a receiver holding either of two distinct keys accepts the worker's
   * request, for exactly as long as the skew check passes.
   */
  lemma BuiltRequestVerifies(
      mac: Mac, current: Signer, retiring: Option<Signer>, d: Delivery, s: Signer, now: int, maxSkew: int)
    requires PlainKeys(current, retiring)
    requires s == current || Some(s) == retiring
    requires IsInt64(d.timestamp) && 0 < maxSkew <= 900_000_000_000
    ensures Verify(mac, s.secret, now, maxSkew, Decimal(d.timestamp), d.event, d.delivery, s.keyId,
                   BuildHeader(mac, current, retiring, d), d.body)
       <==> Fresh(now, maxSkew, d.timestamp)
  {
    BuiltHeaderHolds(mac, current, retiring, d, s.keyId);
    DecimalParses(d.timestamp);
    SignatureIsPlain(mac, s, d);
    hide BuildHeader, Fresh, FirstSignature, SignatureOf, Canonical, Decimal, ParseInt, Base64Url.Decode;
  }

  function SignedText(s: Signer, d: Delivery): string {
    Canonical(d.timestamp, d.event, d.delivery, s.keyId, d.body)
  }

  /** The two texts do not share a digest by accident. */
  predicate NoCollision(mac: Mac, secret: Bytes, a: string, b: string) {
    mac(secret, a) == mac(secret, b) ==> a == b
  }

  /**
   * And only the signed delivery is accepted, also from a header with two entries: unless the two signed
   * texts collide, whatever else verifies with it under one of its keys has the same instant, event,
   * delivery and body.
   */
  lemma OnlyTheSignedDeliveryVerifies(
      mac: Mac, current: Signer, retiring: Option<Signer>, d: Delivery, s: Signer,
      timestamp: string, d': Delivery, now: int, maxSkew: int)
    requires PlainKeys(current, retiring)
    requires s == current || Some(s) == retiring
    requires OneLine(s.keyId)
    requires OneLine(d.event) && OneLine(d.delivery) && OneLine(d'.event) && OneLine(d'.delivery)
    requires NoCollision(mac, s.secret, SignedText(s, d), SignedText(s, d'))
    ensures ParseInt(timestamp, 10) == Some(d'.timestamp) &&
            Verify(mac, s.secret, now, maxSkew, timestamp, d'.event, d'.delivery, s.keyId,
                   BuildHeader(mac, current, retiring, d), d'.body) ==>
      d' == d
  {
    BuiltHeaderHolds(mac, current, retiring, d, s.keyId);
    SignatureIsPlain(mac, s, d);
    hide BuildHeader, Fresh, FirstSignature, SignatureOf, Canonical, ParseInt, Base64Url.Decode, OneLine;
    CanonicalInjective(d.timestamp, d.event, d.delivery, s.keyId, d.body,
                       d'.timestamp, d'.event, d'.delivery, s.keyId, d'.body);
  }
}
