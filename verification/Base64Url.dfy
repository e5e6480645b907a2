/** Unpadded base64url (section 5 of RFC 4648) with the strict decoding rules the program uses. */
module Base64Url {
  import opened Common
  import opened Arith

  /** A 6-bit group. */
  type Sextet = x: int | 0 <= x < 64

  function Letter(x: Sextet): char {
    if x < 26 then 'A' + x as char
    else if x < 52 then 'a' + (x - 26) as char
    else if x < 62 then '0' + (x - 52) as char
    else if x == 62 then '-' else '_'
  }

  function Value(c: char): Option<Sextet> {
    if 'A' <= c <= 'Z' then Some(c as int - 'A' as int)
    else if 'a' <= c <= 'z' then Some(c as int - 'a' as int + 26)
    else if '0' <= c <= '9' then Some(c as int - '0' as int + 52)
    else if c == '-' then Some(62)
    else if c == '_' then Some(63)
    else None
  }

  lemma LetterValue(x: Sextet)
    ensures Value(Letter(x)) == Some(x)
  {
  }

  // ----- three bytes are four sextets

  function S0(b0: byte): Sextet { b0 as int / 4 }
  function S1(b0: byte, b1: byte): Sextet { b0 as int % 4 * 16 + b1 as int / 16 }
  function S2(b1: byte, b2: byte): Sextet { b1 as int % 16 * 4 + b2 as int / 64 }
  function S3(b2: byte): Sextet { b2 as int % 64 }

  function B0(x0: Sextet, x1: Sextet): byte { var a: int := x0; (a * 4 + x1 / 16) as byte }
  function B1(x1: Sextet, x2: Sextet): byte { var a: int := x1; (a % 16 * 16 + x2 / 4) as byte }
  function B2(x2: Sextet, x3: Sextet): byte { var a: int := x2; (a % 4 * 64 + x3) as byte }

  lemma Pack0(b0: byte, b1: byte)
    ensures B0(S0(b0), S1(b0, b1)) == b0 && S1(b0, 0) % 16 == 0
  {
    var hi, lo, next := b0 as int / 4, b0 as int % 4, b1 as int / 16;
    DivUnique(lo * 16 + next, lo, next, 16);
    DivUnique(lo * 16, lo, 0, 16);
  }

  lemma Pack1(b0: byte, b1: byte, b2: byte)
    ensures B1(S1(b0, b1), S2(b1, b2)) == b1 && S2(b1, 0) % 4 == 0
  {
    var first, hi, lo, next := b0 as int % 4, b1 as int / 16, b1 as int % 16, b2 as int / 64;
    DivUnique(first * 16 + hi, first, hi, 16);
    DivUnique(lo * 4 + next, lo, next, 4);
    DivUnique(lo * 4, lo, 0, 4);
  }

  lemma Pack2(b1: byte, b2: byte)
    ensures B2(S2(b1, b2), S3(b2)) == b2
  {
    var first, hi, lo := b1 as int % 16, b2 as int / 64, b2 as int % 64;
    DivUnique(first * 4 + hi, first, hi, 4);
  }

  lemma Unpack0(x0: Sextet, x1: Sextet)
    ensures S0(B0(x0, x1)) == x0
  {
    var a: int, b: int := x0, x1;
    DivUnique(a * 4 + b / 16, a, b / 16, 4);
  }

  lemma Unpack1(x0: Sextet, x1: Sextet, x2: Sextet)
    ensures S1(B0(x0, x1), B1(x1, x2)) == x1
    ensures x1 % 16 == 0 ==> S1(B0(x0, x1), 0) == x1
  {
    var a: int, b: int, c: int := x0, x1, x2;
    DivUnique(a * 4 + b / 16, a, b / 16, 4);
    DivUnique(b % 16 * 16 + c / 4, b % 16, c / 4, 16);
  }

  lemma Unpack2(x1: Sextet, x2: Sextet, x3: Sextet)
    ensures S2(B1(x1, x2), B2(x2, x3)) == x2 && S3(B2(x2, x3)) == x3
    ensures x2 % 4 == 0 ==> S2(B1(x1, x2), 0) == x2
  {
    var a: int, b: int, c: int := x1, x2, x3;
    DivUnique(a % 16 * 16 + b / 4, a % 16, b / 4, 16);
    DivUnique(b % 4 * 64 + c, b % 4, c, 64);
  }

  function Sextets(b: Bytes): seq<Sextet>
    decreases |b|
  {
    if |b| == 0 then []
    else if |b| == 1 then [S0(b[0]), S1(b[0], 0)]
    else if |b| == 2 then [S0(b[0]), S1(b[0], b[1]), S2(b[1], 0)]
    else [S0(b[0]), S1(b[0], b[1]), S2(b[1], b[2]), S3(b[2])] + Sextets(b[3..])
  }

  /** Strict: a final group's unused bits must be zero, and a lone sextet is malformed. */
  function FromSextets(x: seq<Sextet>): Option<Bytes>
    decreases |x|
  {
    if |x| == 0 then Some([])
    else if |x| == 1 then None
    else if |x| == 2 then (if x[1] % 16 == 0 then Some([B0(x[0], x[1])]) else None)
    else if |x| == 3 then (if x[2] % 4 == 0 then Some([B0(x[0], x[1]), B1(x[1], x[2])]) else None)
    else
      match FromSextets(x[4..])
      case None => None
      case Some(rest) => Some([B0(x[0], x[1]), B1(x[1], x[2]), B2(x[2], x[3])] + rest)
  }

  lemma {:induction false} SextetsRoundTrip(b: Bytes)
    ensures FromSextets(Sextets(b)) == Some(b)
    decreases |b|
  {
    hide S0, S1, S2, S3, B0, B1, B2;
    if |b| == 1 {
      Pack0(b[0], 0);
      assert b == [b[0]];
    } else if |b| == 2 {
      Pack0(b[0], b[1]);
      Pack1(b[0], b[1], 0);
      assert b == [b[0], b[1]];
    } else if |b| >= 3 {
      Pack0(b[0], b[1]);
      Pack1(b[0], b[1], b[2]);
      Pack2(b[1], b[2]);
      SextetsRoundTrip(b[3..]);
      assert Sextets(b)[4..] == Sextets(b[3..]);
      assert b == [b[0], b[1], b[2]] + b[3..];
    }
  }

  // ----- text

  function Letters(x: seq<Sextet>): string {
    if x == [] then [] else [Letter(x[0])] + Letters(x[1..])
  }

  /** Go's decoder skips carriage returns and line feeds anywhere in the text. */
  function Values(s: string): Option<seq<Sextet>> {
    if s == [] then Some([])
    else if s[0] == '\r' || s[0] == '\n' then Values(s[1..])
    else
      match (Value(s[0]), Values(s[1..]))
      case (Some(x), Some(rest)) => Some([x] + rest)
      case _ => None
  }

  lemma {:induction false} LettersRoundTrip(x: seq<Sextet>)
    ensures Values(Letters(x)) == Some(x)
  {
    if x != [] {
      LetterValue(x[0]);
      LettersRoundTrip(x[1..]);
      var s := Letters(x);
      assert s[0] == Letter(x[0]) && s[1..] == Letters(x[1..]);
      assert s[0] != '\r' && s[0] != '\n';
      assert x == [x[0]] + x[1..];
    }
  }

  function Encode(b: Bytes): string {
    Letters(Sextets(b))
  }

  function Decode(s: string): Option<Bytes> {
    match Values(s)
    case None => None
    case Some(x) => FromSextets(x)
  }

  /** Decoding an encoding gives back the bytes. */
  lemma RoundTrip(b: Bytes)
    ensures Decode(Encode(b)) == Some(b)
  {
    SextetsRoundTrip(b);
    LettersRoundTrip(Sextets(b));
  }

  lemma {:induction false} SextetsLength(b: Bytes)
    ensures |Sextets(b)| == (4 * |b| + 2) / 3
    decreases |b|
  {
    if |b| >= 3 { SextetsLength(b[3..]); }
  }

  lemma {:induction false} LettersShape(x: seq<Sextet>)
    ensures |Letters(x)| == |x|
    ensures forall i :: 0 <= i < |x| ==> Letters(x)[i] == Letter(x[i])
  {
    if x != [] { LettersShape(x[1..]); }
  }

  /** The text is ceil(4n/3) letters of the alphabet, none of them a separator. */
  lemma EncodedText(b: Bytes)
    ensures |Encode(b)| == (4 * |b| + 2) / 3
    ensures forall i :: 0 <= i < |Encode(b)| ==>
      var c := Encode(b)[i]; 'A' <= c <= 'Z' || 'a' <= c <= 'z' || '0' <= c <= '9' || c == '-' || c == '_'
  {
    SextetsLength(b);
    LettersShape(Sextets(b));
  }

  // ----- the encoding itself

  /** The URL and filename safe alphabet. */
  lemma LetterOfAlphabet(x: Sextet)
    ensures Letter(x) ==
      if x < 26 then "ABCDEFGHIJKLMNOPQRSTUVWXYZ"[x]
      else if x < 52 then "abcdefghijklmnopqrstuvwxyz"[x - 26]
      else "0123456789-_"[x - 52]
  {
  }

  lemma FourDigits(b0: byte, b1: byte, b2: byte)
    ensures 65536 * b0 as int + 256 * b1 as int + b2 as int
         == 262144 * S0(b0) + 4096 * S1(b0, b1) + 64 * S2(b1, b2) + S3(b2)
  {
    var a: int, b: int, c: int := b0 as int, b1 as int, b2 as int;
    assert a == a / 4 * 4 + a % 4 && b == b / 16 * 16 + b % 16 && c == c / 64 * 64 + c % 64;
  }

  lemma ThreeDigits(b0: byte, b1: byte)
    ensures 4 * (256 * b0 as int + b1 as int) == 4096 * S0(b0) + 64 * S1(b0, b1) + S2(b1, 0)
  {
    var a: int, b: int := b0 as int, b1 as int;
    assert a == a / 4 * 4 + a % 4 && b == b / 16 * 16 + b % 16;
  }

  lemma TwoDigits(b0: byte)
    ensures 16 * b0 as int == 64 * S0(b0) + S1(b0, 0)
  {
  }

  /** The sextets from the k-th group on are those of the bytes from the k-th group on. */
  lemma {:induction false} SextetsFrom(b: Bytes, k: nat)
    requires 3 * k <= |b|
    ensures 4 * k <= |Sextets(b)| && Sextets(b)[4 * k..] == Sextets(b[3 * k..])
    decreases k
  {
    if k > 0 {
      SextetsFrom(b[3..], k - 1);
      assert b[3..][3 * (k - 1)..] == b[3 * k..];
      assert Sextets(b)[4..] == Sextets(b[3..]);
      assert Sextets(b)[4 * k..] == Sextets(b)[4..][4 * (k - 1)..];
    }
  }

  ghost function Digit(s: string, i: nat): int
    requires i < |s|
  {
    if Value(s[i]).Some? then Value(s[i]).value else -1
  }

  lemma LettersFrom(x: seq<Sextet>)
    ensures |Letters(x)| == |x| && forall i :: 0 <= i < |x| ==> Digit(Letters(x), i) == x[i]
  {
    LettersShape(x);
    forall i | 0 <= i < |x|
      ensures Digit(Letters(x), i) == x[i]
    {
      LetterValue(x[i]);
    }
  }

  /**
   * Three bytes, as one number of 24 bits, are written as its four digits in base 64. A last byte or a last
   * pair is written as the digits of its number with zero bits behind, four or two of them.
   */
  lemma EncodedGroups(b: Bytes, k: nat)
    requires 3 * k <= |b|
    ensures |Encode(b)| == (4 * |b| + 2) / 3
    ensures var s := Encode(b);
      var i, j := 3 * k, 4 * k;
      && (i + 3 <= |b| ==>
            65536 * b[i] as int + 256 * b[i + 1] as int + b[i + 2] as int
            == 262144 * Digit(s, j) + 4096 * Digit(s, j + 1) + 64 * Digit(s, j + 2) + Digit(s, j + 3))
      && (i + 2 == |b| ==>
            4 * (256 * b[i] as int + b[i + 1] as int)
            == 4096 * Digit(s, j) + 64 * Digit(s, j + 1) + Digit(s, j + 2))
      && (i + 1 == |b| ==> 16 * b[i] as int == 64 * Digit(s, j) + Digit(s, j + 1))
  {
    SextetsLength(b);
    SextetsFrom(b, k);
    LettersFrom(Sextets(b));
    assert Encode(b) == Letters(Sextets(b));
    var rest := b[3 * k..];
    var x := Sextets(b);
    DigitsOfGroup(b, rest, x, k);
    hide *;
    if |rest| >= 3 {
      FourDigits(rest[0], rest[1], rest[2]);
    } else if |rest| == 2 {
      ThreeDigits(rest[0], rest[1]);
    } else if |rest| == 1 {
      TwoDigits(rest[0]);
    }
  }

  lemma DigitsOfGroup(b: Bytes, rest: Bytes, x: seq<Sextet>, k: nat)
    requires 3 * k <= |b| && rest == b[3 * k..] && 4 * k <= |x| && x[4 * k..] == Sextets(rest)
    ensures forall i :: 0 <= i < |rest| ==> rest[i] == b[3 * k + i]
    ensures |rest| >= 1 ==> |x| >= 4 * k + 2 && x[4 * k] == S0(rest[0])
    ensures |rest| == 1 ==> x[4 * k + 1] == S1(rest[0], 0)
    ensures |rest| >= 2 ==> |x| >= 4 * k + 3 && x[4 * k + 1] == S1(rest[0], rest[1])
    ensures |rest| == 2 ==> x[4 * k + 2] == S2(rest[1], 0)
    ensures |rest| >= 3 ==> |x| >= 4 * k + 4 && x[4 * k + 2] == S2(rest[1], rest[2]) && x[4 * k + 3] == S3(rest[2])
  {
    hide S0, S1, S2, S3;
    assert forall i :: 0 <= i < |x| - 4 * k ==> x[4 * k + i] == Sextets(rest)[i];
  }

  // ----- the decoder accepts only encodings, up to the skipped line breaks

  function WithoutBreaks(s: string): string {
    if s == [] then []
    else if s[0] == '\r' || s[0] == '\n' then WithoutBreaks(s[1..])
    else [s[0]] + WithoutBreaks(s[1..])
  }

  lemma ValueLetter(c: char)
    requires Value(c).Some?
    ensures Letter(Value(c).value) == c
  {
  }

  lemma {:induction false} ValuesRoundTrip(s: string)
    requires Values(s).Some?
    ensures Letters(Values(s).value) == WithoutBreaks(s)
  {
    if s != [] {
      if s[0] == '\r' || s[0] == '\n' {
        ValuesRoundTrip(s[1..]);
      } else {
        ValuesRoundTrip(s[1..]);
        ValueLetter(s[0]);
        assert Values(s).value[1..] == Values(s[1..]).value;
      }
    }
  }

  lemma {:induction false} FromSextetsRoundTrip(x: seq<Sextet>)
    requires FromSextets(x).Some?
    ensures Sextets(FromSextets(x).value) == x
    decreases |x|
  {
    hide S0, S1, S2, S3, B0, B1, B2;
    if |x| == 2 {
      Unpack0(x[0], x[1]);
      Unpack1(x[0], x[1], 0);
    } else if |x| == 3 {
      Unpack0(x[0], x[1]);
      Unpack1(x[0], x[1], x[2]);
      Unpack2(x[1], x[2], 0);
    } else if |x| >= 4 {
      Unpack0(x[0], x[1]);
      Unpack1(x[0], x[1], x[2]);
      Unpack2(x[1], x[2], x[3]);
      FromSextetsRoundTrip(x[4..]);
      var b := FromSextets(x).value;
      assert b[3..] == FromSextets(x[4..]).value;
      assert x == [x[0], x[1], x[2], x[3]] + x[4..];
    }
  }

  /** Strictness: a text that decodes is, up to skipped line breaks, the encoding of what it decodes to. */
  lemma DecodedIsCanonical(s: string)
    requires Decode(s).Some?
    ensures Encode(Decode(s).value) == WithoutBreaks(s)
  {
    ValuesRoundTrip(s);
    FromSextetsRoundTrip(Values(s).value);
  }
}
