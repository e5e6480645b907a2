/** API keys and console session tokens: printed from random bytes, parsed back to their public prefix. */
module Tokens {
  import opened Common
  import opened Text
  import Base64Url

  // ----- hexadecimal

  function HexDigit(x: int): char
    requires 0 <= x < 16
  {
    if x < 10 then '0' + x as char else 'a' + (x - 10) as char
  }

  function HexEncode(b: Bytes): (s: string)
    ensures |s| == 2 * |b|
  {
    if b == [] then "" else [HexDigit(b[0] as int / 16), HexDigit(b[0] as int % 16)] + HexEncode(b[1..])
  }

  function HexValue(c: char): Option<int> {
    if '0' <= c <= '9' then Some(c as int - '0' as int)
    else if 'a' <= c <= 'f' then Some(c as int - 'a' as int + 10)
    else if 'A' <= c <= 'F' then Some(c as int - 'A' as int + 10)
    else None
  }

  function HexDecode(s: string): Option<Bytes> {
    if s == "" then Some([])
    else if |s| == 1 || HexValue(s[0]).None? || HexValue(s[1]).None? then None
    else
      var rest := HexDecode(s[2..]);
      if rest.None? then None
      else
        var v: int := HexValue(s[0]).value * 16 + HexValue(s[1]).value;
        HexValueBound(s[0]);
        HexValueBound(s[1]);
        Some([v as byte] + rest.value)
  }

  lemma HexValueBound(c: char)
    ensures HexValue(c).Some? ==> 0 <= HexValue(c).value < 16
  {
  }

  lemma HexDigitValue(x: int)
    requires 0 <= x < 16
    ensures HexValue(HexDigit(x)) == Some(x) && HexDigit(x) != '_'
  {
  }

  lemma {:induction false} HexRoundTrip(b: Bytes)
    ensures HexDecode(HexEncode(b)) == Some(b) && '_' !in HexEncode(b)
  {
    if b != [] {
      var hi, lo := b[0] as int / 16, b[0] as int % 16;
      HexDigitValue(hi);
      HexDigitValue(lo);
      HexRoundTrip(b[1..]);
      hide HexDigit, HexValue;
      assert HexEncode(b)[2..] == HexEncode(b[1..]);
      assert b == [b[0]] + b[1..];
    }
  }

  ghost predicate IsHex(c: char) {
    '0' <= c <= '9' || 'a' <= c <= 'f' || 'A' <= c <= 'F'
  }

  /** Two hexadecimal digits of either case a byte, the high one first; nothing else is decoded. */
  lemma {:induction false} HexExact(s: string)
    ensures HexDecode(s).Some? <==> |s| % 2 == 0 && forall i :: 0 <= i < |s| ==> IsHex(s[i])
    ensures HexDecode(s).Some? ==>
      && |s| == 2 * |HexDecode(s).value|
      && forall i :: 0 <= i < |HexDecode(s).value| ==>
        HexDecode(s).value[i] as int == 16 * HexValue(s[2 * i]).value + HexValue(s[2 * i + 1]).value
  {
    if |s| >= 2 {
      var rest := s[2..];
      HexExact(rest);
      assert forall i :: 0 <= i < |rest| ==> rest[i] == s[i + 2];
      if (|s| % 2 == 0 && forall i :: 0 <= i < |s| ==> IsHex(s[i])) || HexDecode(s).Some? {
        assert IsHex(s[0]) && IsHex(s[1]);
        assert HexDecode(s).value[1..] == HexDecode(rest).value;
      }
    } else if |s| == 1 {
      assert |s| % 2 == 1;
    }
  }

  /** The digits that are printed. */
  lemma HexDigits(x: int)
    requires 0 <= x < 16
    ensures HexDigit(x) == "0123456789abcdef"[x]
  {
  }

  // ----- splitting into at most n parts

  /** The last part keeps any further separators. */
  function SplitN(s: string, sep: char, n: nat): (r: seq<string>)
    requires n >= 1
    ensures 1 <= |r| <= n
  {
    var i := IndexOf(s, sep);
    if n == 1 || i == |s| then [s] else [s[..i]] + SplitN(s[i + 1..], sep, n - 1)
  }

  /** One step of the split: the text before the first separator, and the split of the rest. */
  lemma SplitNStep(a: string, sep: char, rest: string, n: nat)
    requires n >= 2 && sep !in a
    ensures SplitN(a + [sep] + rest, sep, n) == [a] + SplitN(rest, sep, n - 1)
  {
    IndexUnique(a, sep, rest);
    hide IndexOf;
    var s := a + [sep] + rest;
    assert s[..|a|] == a && s[|a| + 1..] == rest;
  }

  lemma {:induction false} SplitNJoin(parts: seq<string>, sep: char)
    requires |parts| >= 1 && forall i :: 0 <= i < |parts| - 1 ==> sep !in parts[i]
    ensures SplitN(Join(parts, sep), sep, |parts|) == parts
  {
    if |parts| > 1 {
      SplitNStep(parts[0], sep, Join(parts[1..], sep), |parts|);
      SplitNJoin(parts[1..], sep);
      hide SplitN;
      assert parts == [parts[0]] + parts[1..];
    }
  }

  lemma CutAt(s: string, sep: char, i: nat)
    requires i < |s| && s[i] == sep
    ensures s == s[..i] + [sep] + s[i + 1..]
  {
    assert s == s[..i] + [s[i]] + s[i + 1..];
  }

  lemma {:induction false} JoinSplitN(s: string, sep: char, n: nat)
    requires n >= 1
    ensures Join(SplitN(s, sep, n), sep) == s
  {
    var i := IndexOf(s, sep);
    hide IndexOf;
    if n > 1 && i < |s| {
      JoinSplitN(s[i + 1..], sep, n - 1);
      assert SplitN(s, sep, n)[1..] == SplitN(s[i + 1..], sep, n - 1);
      CutAt(s, sep, i);
    }
  }

  lemma JoinCons(a: string, rest: seq<string>)
    requires |rest| >= 1
    ensures Join([a] + rest, '_') == a + ("_" + Join(rest, '_'))
  {
    assert ([a] + rest)[1..] == rest;
    assert a + ['_'] + Join(rest, '_') == a + (['_'] + Join(rest, '_'));
  }

  lemma Join3(a: string, b: string, c: string)
    ensures Join([a, b, c], '_') == a + ("_" + (b + ("_" + c)))
  {
    JoinCons(b, [c]);
    JoinCons(a, [b, c]);
    hide Join;
    assert [b] + [c] == [b, c] && [a] + [b, c] == [a, b, c];
  }

  lemma Join4(a: string, b: string, c: string, d: string)
    ensures Join([a, b, c, d], '_') == a + ("_" + (b + ("_" + (c + ("_" + d)))))
  {
    Join3(b, c, d);
    JoinCons(a, [b, c, d]);
    hide Join;
    assert [a] + [b, c, d] == [a, b, c, d];
  }

  // ----- API keys

  function IsSecret(text: string): bool {
    Base64Url.Decode(text).Some? && |Base64Url.Decode(text).value| == 32
  }

  function Environment(test: bool): string {
    if test then "test" else "live"
  }

  function ApiToken(test: bool, prefix: Bytes, secret: Bytes): string {
    "wde_" + (Environment(test) + ("_" + (HexEncode(prefix) + ("_" + Base64Url.Encode(secret)))))
  }

  function TokenPrefix(token: string): Option<string> {
    if |token| > 249 then None
    else
      var parts := SplitN(token, '_', 4);
      if |parts| != 4 || parts[0] != "wde" || (parts[1] != "test" && parts[1] != "live") || |parts[2]| != 16 then None
      else if HexDecode(parts[2]).None? || !IsSecret(parts[3]) then None
      else Some(parts[2])
  }

  /** The token and its prefix, from the header of a request. */
  function Bearer(header: string): Option<(string, string)> {
    if |header| > 256 || !("Bearer " <= header) then None
    else
      var token := header[7..];
      if TokenPrefix(token).None? then None else Some((token, TokenPrefix(token).value))
  }

  lemma SecretText(secret: Bytes)
    requires |secret| == 32
    ensures IsSecret(Base64Url.Encode(secret)) && |Base64Url.Encode(secret)| == 43
  {
    Base64Url.RoundTrip(secret);
    Base64Url.EncodedText(secret);
  }

  /** The parts of a generated key, whatever underscores its secret's text contains. */
  lemma KeySplits(test: bool, prefix: Bytes, secret: Bytes)
    ensures SplitN(ApiToken(test, prefix, secret), '_', 4)
         == ["wde", Environment(test), HexEncode(prefix), Base64Url.Encode(secret)]
  {
    HexRoundTrip(prefix);
    var a, b, c, d := "wde", Environment(test), HexEncode(prefix), Base64Url.Encode(secret);
    assert '_' !in b;
    var token := ApiToken(test, prefix, secret);
    LeadingLabel("wde", b + ("_" + (c + ("_" + d))));
    hide HexEncode, HexDecode, Base64Url.Encode, SplitN, Join;
    Join4(a, b, c, d);
    assert token == Join([a, b, c, d], '_');
    SplitNJoin([a, b, c, d], '_');
  }

  lemma LeadingLabel(a: string, rest: string)
    ensures (a + "_") + rest == a + ("_" + rest)
  {
  }

  lemma KeyLength(test: bool, prefix: Bytes, secret: Bytes)
    requires |prefix| == 8 && |secret| == 32
    ensures |ApiToken(test, prefix, secret)| == 4 + 4 + 1 + 16 + 1 + 43
  {
    SecretText(secret);
    hide HexEncode, Base64Url.Encode;
  }

  lemma KeyParses(test: bool, prefix: Bytes, secret: Bytes)
    requires |prefix| == 8 && |secret| == 32
    ensures TokenPrefix(ApiToken(test, prefix, secret)) == Some(HexEncode(prefix))
  {
    KeySplits(test, prefix, secret);
    HexRoundTrip(prefix);
    SecretText(secret);
    KeyLength(test, prefix, secret);
    hide HexEncode, HexDecode, Base64Url.Encode, IsSecret, SplitN, ApiToken;
  }

  /** Every generated key parses to its own prefix. */
  lemma GeneratedKeyParses(test: bool, prefix: Bytes, secret: Bytes)
    requires |prefix| == 8 && |secret| == 32
    ensures var token := ApiToken(test, prefix, secret);
      TokenPrefix(token) == Some(HexEncode(prefix)) && Bearer("Bearer " + token) == Some((token, HexEncode(prefix)))
  {
    var token := ApiToken(test, prefix, secret);
    KeyParses(test, prefix, secret);
    KeyLength(test, prefix, secret);
    hide HexEncode, TokenPrefix, ApiToken;
    assert ("Bearer " + token)[7..] == token;
  }

  lemma JoinedFour(parts: seq<string>)
    requires |parts| == 4
    ensures Join(parts, '_') == parts[0] + ("_" + (parts[1] + ("_" + (parts[2] + ("_" + parts[3])))))
  {
    Join4(parts[0], parts[1], parts[2], parts[3]);
    hide Join;
    assert parts == [parts[0], parts[1], parts[2], parts[3]];
  }

  lemma JoinedThree(parts: seq<string>)
    requires |parts| == 3
    ensures Join(parts, '_') == parts[0] + ("_" + (parts[1] + ("_" + parts[2])))
  {
    Join3(parts[0], parts[1], parts[2]);
    hide Join;
    assert parts == [parts[0], parts[1], parts[2]];
  }

  /** What the four parts of a key are. */
  lemma KeyParts(token: string) returns (test: bool)
    requires TokenPrefix(token).Some?
    ensures var parts := SplitN(token, '_', 4);
      && |parts| == 4 && parts[0] == "wde" && parts[1] == Environment(test)
      && parts[2] == TokenPrefix(token).value && IsSecret(parts[3])
  {
    hide HexDecode, IsSecret, SplitN;
    test := SplitN(token, '_', 4)[1] == "test";
  }

  /** Whatever parses is a key of one of the two environments around its prefix and a 32-byte secret. */
  lemma ParsedKeyShape(token: string) returns (test: bool, secret: string)
    requires TokenPrefix(token).Some?
    ensures token == "wde_" + (Environment(test) + ("_" + (TokenPrefix(token).value + ("_" + secret))))
    ensures IsSecret(secret)
  {
    hide *;
    test := KeyParts(token);
    var parts := SplitN(token, '_', 4);
    secret := parts[3];
    JoinSplitN(token, '_', 4);
    JoinedFour(parts);
    LeadingLabel("wde", Environment(test) + ("_" + (parts[2] + ("_" + secret))));
  }

  // ----- session tokens

  function SessionToken(prefix: Bytes, secret: Bytes): string {
    "wds_" + (HexEncode(prefix) + ("_" + Base64Url.Encode(secret)))
  }

  function ParseToken(token: string): Option<string> {
    if |token| > 128 then None
    else
      var parts := SplitN(token, '_', 3);
      if |parts| != 3 || parts[0] != "wds" || |parts[1]| != 16 then None
      else if HexDecode(parts[1]).None? || !IsSecret(parts[2]) then None
      else Some(parts[1])
  }

  lemma SessionSplits(prefix: Bytes, secret: Bytes)
    ensures SplitN(SessionToken(prefix, secret), '_', 3) == ["wds", HexEncode(prefix), Base64Url.Encode(secret)]
  {
    HexRoundTrip(prefix);
    var a, b, c := "wds", HexEncode(prefix), Base64Url.Encode(secret);
    LeadingLabel("wds", b + ("_" + c));
    hide HexEncode, HexDecode, Base64Url.Encode, SplitN, Join;
    Join3(a, b, c);
    assert SessionToken(prefix, secret) == Join([a, b, c], '_');
    SplitNJoin([a, b, c], '_');
  }

  lemma GeneratedSessionParses(prefix: Bytes, secret: Bytes)
    requires |prefix| == 8 && |secret| == 32
    ensures ParseToken(SessionToken(prefix, secret)) == Some(HexEncode(prefix))
  {
    SessionSplits(prefix, secret);
    HexRoundTrip(prefix);
    SecretText(secret);
    assert |SessionToken(prefix, secret)| == 4 + 16 + 1 + 43;
    hide HexEncode, HexDecode, Base64Url.Encode, IsSecret, SplitN, SessionToken;
  }

  /** No text is both an API key and a session token. */
  lemma KindsNeverMix(token: string)
    ensures TokenPrefix(token).None? || ParseToken(token).None?
  {
    hide HexDecode, IsSecret;
    assert SplitN(token, '_', 4)[0] == SplitN(token, '_', 3)[0];
  }

  /**
   * Distinct random bytes never print the same token; the prefix and the secret can both be read back.
   */
  lemma GeneratedKeysDiffer(test: bool, prefix: Bytes, secret: Bytes, test': bool, prefix': Bytes, secret': Bytes)
    requires |prefix| == |prefix'| == 8 && |secret| == |secret'| == 32
    ensures ApiToken(test, prefix, secret) == ApiToken(test', prefix', secret')
       <==> test == test' && prefix == prefix' && secret == secret'
  {
    KeySplits(test, prefix, secret);
    KeySplits(test', prefix', secret');
    HexRoundTrip(prefix);
    HexRoundTrip(prefix');
    Base64Url.RoundTrip(secret);
    Base64Url.RoundTrip(secret');
    hide HexEncode, HexDecode, Base64Url.Encode, Base64Url.Decode, ApiToken, SplitN;
    if ApiToken(test, prefix, secret) == ApiToken(test', prefix', secret') {
      var x := ["wde", Environment(test), HexEncode(prefix), Base64Url.Encode(secret)];
      var y := ["wde", Environment(test'), HexEncode(prefix'), Base64Url.Encode(secret')];
      assert x == y;
      assert x[1] == y[1] && x[2] == y[2] && x[3] == y[3];
    }
  }

  /** A text of that many hexadecimal digits, and one that decodes to 32 bytes. */
  ghost predicate Pieces(prefix: string, secret: string) {
    && |prefix| == 16 && (forall i :: 0 <= i < 16 ==> IsHex(prefix[i]))
    && Base64Url.Decode(secret).Some? && |Base64Url.Decode(secret).value| == 32
  }

  lemma HexIsPlain(s: string)
    requires forall i :: 0 <= i < |s| ==> IsHex(s[i])
    ensures '_' !in s
  {
  }

  ghost function KeyText(environment: string, prefix: string, secret: string): string {
    "wde_" + (environment + ("_" + (prefix + ("_" + secret))))
  }

  /** Exactly the texts of at most 249 characters of this shape are API keys, with that prefix. */
  lemma ApiKeyExact(token: string, prefix: string)
    ensures TokenPrefix(token) == Some(prefix) <==>
      && |token| <= 249
      && exists environment, secret :: environment in {"test", "live"} && Pieces(prefix, secret)
                                       && token == KeyText(environment, prefix, secret)
  {
    hide TokenPrefix, Pieces, KeyText;
    if TokenPrefix(token) == Some(prefix) {
      var environment, secret := KeyHasShape(token, prefix);
    }
    if |token| <= 249 {
      forall environment, secret | environment in {"test", "live"} && Pieces(prefix, secret)
                                   && token == KeyText(environment, prefix, secret)
        ensures TokenPrefix(token) == Some(prefix)
      {
        ShapeIsKey(environment, prefix, secret);
      }
    }
  }

  lemma KeyHasShape(token: string, prefix: string) returns (environment: string, secret: string)
    requires TokenPrefix(token) == Some(prefix)
    ensures |token| <= 249 && environment in {"test", "live"} && Pieces(prefix, secret)
    ensures token == KeyText(environment, prefix, secret)
  {
    var test;
    test, secret := ParsedKeyShape(token);
    environment := Environment(test);
    HexExact(prefix);
    hide HexDecode, IsHex, SplitN;
  }

  lemma ShapeIsKey(environment: string, prefix: string, secret: string)
    requires environment in {"test", "live"} && Pieces(prefix, secret)
    requires |KeyText(environment, prefix, secret)| <= 249
    ensures TokenPrefix(KeyText(environment, prefix, secret)) == Some(prefix)
  {
    HexIsPlain(prefix);
    KeyOfPieces(environment, prefix, secret);
    HexExact(prefix);
    hide HexDecode, IsHex, SplitN, KeyText;
  }

  lemma KeyOfPieces(environment: string, prefix: string, secret: string)
    requires environment in {"test", "live"} && '_' !in prefix
    ensures SplitN(KeyText(environment, prefix, secret), '_', 4) == ["wde", environment, prefix, secret]
  {
    var a, b, c, d := "wde", environment, prefix, secret;
    assert '_' !in a && '_' !in b;
    LeadingLabel("wde", b + ("_" + (c + ("_" + d))));
    hide SplitN, Join;
    Join4(a, b, c, d);
    assert KeyText(b, c, d) == Join([a, b, c, d], '_');
    SplitNJoin([a, b, c, d], '_');
  }

  ghost function SessionText(prefix: string, secret: string): string {
    "wds_" + (prefix + ("_" + secret))
  }

  /** Exactly the texts of at most 128 characters of this shape are session tokens, with that prefix. */
  lemma SessionExact(token: string, prefix: string)
    ensures ParseToken(token) == Some(prefix) <==>
      |token| <= 128 && exists secret :: Pieces(prefix, secret) && token == SessionText(prefix, secret)
  {
    hide ParseToken, Pieces, SessionText;
    if ParseToken(token) == Some(prefix) {
      var secret := SessionHasShape(token, prefix);
    }
    if |token| <= 128 {
      forall secret | Pieces(prefix, secret) && token == SessionText(prefix, secret)
        ensures ParseToken(token) == Some(prefix)
      {
        ShapeIsSession(prefix, secret);
      }
    }
  }

  lemma SessionParts(token: string)
    requires ParseToken(token).Some?
    ensures var parts := SplitN(token, '_', 3);
      && |token| <= 128 && |parts| == 3 && parts[0] == "wds" && parts[1] == ParseToken(token).value
      && Pieces(parts[1], parts[2])
  {
    HexExact(SplitN(token, '_', 3)[1]);
    hide HexDecode, IsHex, SplitN;
  }

  lemma SessionHasShape(token: string, prefix: string) returns (secret: string)
    requires ParseToken(token) == Some(prefix)
    ensures |token| <= 128 && Pieces(prefix, secret) && token == SessionText(prefix, secret)
  {
    assert forall x :: SessionText(prefix, x) == "wds_" + (prefix + ("_" + x));
    hide *;
    SessionParts(token);
    var parts := SplitN(token, '_', 3);
    secret := parts[2];
    JoinSplitN(token, '_', 3);
    JoinedThree(parts);
    LeadingLabel("wds", prefix + ("_" + secret));
  }

  lemma ShapeIsSession(prefix: string, secret: string)
    requires Pieces(prefix, secret) && |SessionText(prefix, secret)| <= 128
    ensures ParseToken(SessionText(prefix, secret)) == Some(prefix)
  {
    HexIsPlain(prefix);
    SessionOfPieces(prefix, secret);
    HexExact(prefix);
    hide HexDecode, IsHex, SplitN, SessionText;
  }

  lemma SessionOfPieces(prefix: string, secret: string)
    requires '_' !in prefix
    ensures SplitN(SessionText(prefix, secret), '_', 3) == ["wds", prefix, secret]
  {
    var a, b, c := "wds", prefix, secret;
    assert '_' !in a;
    LeadingLabel("wds", b + ("_" + c));
    hide SplitN, Join;
    Join3(a, b, c);
    assert SessionText(b, c) == Join([a, b, c], '_');
    SplitNJoin([a, b, c], '_');
  }

  /** A key is taken from a header of at most 256 characters, after `Bearer ` and nothing else. */
  lemma BearerExact(header: string, token: string, prefix: string)
    ensures Bearer(header) == Some((token, prefix)) <==>
      |header| <= 256 && header == "Bearer " + token && TokenPrefix(token) == Some(prefix)
  {
    hide TokenPrefix;
    assert header == "Bearer " + token ==> header[7..] == token;
    assert "Bearer " <= header ==> header == "Bearer " + header[7..];
  }
}
