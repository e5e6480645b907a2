/** Byte strings (one char per byte): splitting, joining, numerals and their bytewise order. */
module Text {
  import opened Common
  import opened Arith

  // ----- split and join

  function IndexOf(s: string, c: char): (i: nat)
    ensures i <= |s| && (forall j :: 0 <= j < i ==> s[j] != c) && (i < |s| ==> s[i] == c)
  {
    if s == "" || s[0] == c then 0 else 1 + IndexOf(s[1..], c)
  }

  lemma IndexUnique(a: string, c: char, b: string)
    requires c !in a
    ensures IndexOf(a + [c] + b, c) == |a|
  {
    var s := a + [c] + b;
    assert s[|a|] == c && forall j :: 0 <= j < |a| ==> s[j] == a[j];
  }

  function Split(s: string, sep: char): (r: seq<string>)
    ensures |r| >= 1
    decreases |s|
  {
    var i := IndexOf(s, sep);
    if i == |s| then [s] else [s[..i]] + Split(s[i + 1..], sep)
  }

  function Join(fields: seq<string>, sep: char): string
    requires |fields| >= 1
  {
    if |fields| == 1 then fields[0] else fields[0] + [sep] + Join(fields[1..], sep)
  }

  lemma {:induction false} SplitJoin(fields: seq<string>, sep: char)
    requires |fields| >= 1 && forall i :: 0 <= i < |fields| ==> sep !in fields[i]
    ensures Split(Join(fields, sep), sep) == fields
  {
    if |fields| == 1 {
      assert IndexOf(fields[0], sep) == |fields[0]|;
    } else {
      var rest := Join(fields[1..], sep);
      var s := fields[0] + [sep] + rest;
      IndexUnique(fields[0], sep, rest);
      assert s[..|fields[0]|] == fields[0] && s[|fields[0]| + 1..] == rest;
      SplitJoin(fields[1..], sep);
    }
  }

  lemma {:induction false} JoinSplit(s: string, sep: char)
    ensures Join(Split(s, sep), sep) == s
    ensures forall i :: 0 <= i < |Split(s, sep)| ==> sep !in Split(s, sep)[i]
    decreases |s|
  {
    var i := IndexOf(s, sep);
    if i < |s| {
      JoinSplit(s[i + 1..], sep);
      assert Split(s, sep)[1..] == Split(s[i + 1..], sep);
      assert s == s[..i] + [sep] + s[i + 1..];
    }
  }

  // ----- numerals

  function Digit(d: nat): char
    requires d < 10
  {
    '0' + d as char
  }

  function Digits(n: nat, base: nat): (s: string)
    requires 2 <= base <= 10
    ensures |s| >= 1
    decreases n
  {
    if n < base then [Digit(n)] else Digits(n / base, base) + [Digit(n % base)]
  }

  predicate AllDigits(s: string, base: nat)
    requires 2 <= base <= 10
  {
    forall i :: 0 <= i < |s| ==> '0' <= s[i] && s[i] as int - '0' as int < base
  }

  function Numeral(s: string, base: nat): nat
    requires 2 <= base <= 10 && AllDigits(s, base)
  {
    if s == "" then 0
    else Numeral(s[..|s| - 1], base) * base + (s[|s| - 1] as int - '0' as int)
  }

  lemma NumeralSnoc(s: string, d: nat, base: nat)
    requires 2 <= base <= 10 && AllDigits(s, base) && d < base
    ensures AllDigits(s + [Digit(d)], base) && Numeral(s + [Digit(d)], base) == Numeral(s, base) * base + d
  {
    var t := s + [Digit(d)];
    assert t[..|t| - 1] == s && t[|t| - 1] == Digit(d);
  }

  lemma {:induction false} DigitsNumeral(n: nat, base: nat)
    requires 2 <= base <= 10
    ensures AllDigits(Digits(n, base), base) && Numeral(Digits(n, base), base) == n
    decreases n
  {
    hide AllDigits, Numeral;
    if n < base {
      NumeralEmpty(base);
      NumeralSnoc("", n, base);
      assert "" + [Digit(n)] == [Digit(n)];
    } else {
      var q, r := DigitsUnfold(n, base);
      hide Digits;
      DigitsNumeral(q, base);
      NumeralSnoc(Digits(q, base), r, base);
    }
  }

  lemma DigitsUnfold(n: nat, base: nat) returns (q: nat, r: nat)
    requires 2 <= base <= 10 && n >= base
    ensures q < n && r < base && n == q * base + r && Digits(n, base) == Digits(q, base) + [Digit(r)]
  {
    q, r := n / base, n % base;
  }

  lemma NumeralEmpty(base: nat)
    requires 2 <= base <= 10
    ensures AllDigits("", base) && Numeral("", base) == 0
  {
  }

  function Zeros(k: nat): (s: string)
    ensures |s| == k && forall i :: 0 <= i < k ==> s[i] == '0'
  {
    if k == 0 then "" else Zeros(k - 1) + "0"
  }

  lemma {:induction false} LeadingZeros(k: nat, s: string, base: nat)
    requires 2 <= base <= 10 && AllDigits(s, base)
    ensures AllDigits(Zeros(k) + s, base) && Numeral(Zeros(k) + s, base) == Numeral(s, base)
    decreases k + |s|
  {
    var t := Zeros(k) + s;
    if s != "" {
      LeadingZeros(k, s[..|s| - 1], base);
      assert t[..|t| - 1] == Zeros(k) + s[..|s| - 1];
    } else if k > 0 {
      LeadingZeros(k - 1, "", base);
      assert t[..|t| - 1] == Zeros(k - 1) + "";
    }
  }

  /** strconv.ParseInt with 64 bits: an optional sign, then digits of the base, in range. */
  function ParseInt(s: string, base: nat): Option<int>
    requires 2 <= base <= 10
  {
    var body := if s != "" && (s[0] == '+' || s[0] == '-') then s[1..] else s;
    if body == "" || !AllDigits(body, base) then None
    else
      var v: int := Numeral(body, base);
      if s[0] == '-' then (if v > TWO_63 then None else Some(-v))
      else if v >= TWO_63 then None else Some(v)
  }

  /** Padded digits read back, with and without a minus sign; only the negative range reaches 2^63. */
  lemma SignedParses(zeros: nat, n: int, base: nat)
    requires 2 <= base <= 10 && 0 <= n <= TWO_63
    ensures n < TWO_63 ==> ParseInt(Zeros(zeros) + Digits(n, base), base) == Some(n)
    ensures ParseInt("-" + (Zeros(zeros) + Digits(n, base)), base) == Some(-n)
  {
    hide Digits, Numeral, AllDigits, Zeros;
    DigitsNumeral(n, base);
    LeadingZeros(zeros, Digits(n, base), base);
    FirstIsDigit(Zeros(zeros) + Digits(n, base), base);
    var body := Zeros(zeros) + Digits(n, base);
    assert ("-" + body)[1..] == body;
  }

  lemma FirstIsDigit(s: string, base: nat)
    requires 2 <= base <= 10 && s != "" && AllDigits(s, base)
    ensures s[0] != '+' && s[0] != '-'
  {
  }

  /** strconv.Itoa. */
  function Decimal(n: int): string {
    if n < 0 then "-" + Digits(-n, 10) else Digits(n, 10)
  }

  function CanonicalInteger(s: string): Option<int> {
    var p := ParseInt(s, 10);
    if p.None? || p.value < 0 || Decimal(p.value) != s then None else p
  }

  /** Every 64-bit integer's decimal parses back to it. */
  lemma DecimalParses(n: int)
    requires IsInt64(n)
    ensures ParseInt(Decimal(n), 10) == Some(n)
  {
    var m := if n < 0 then -n else n;
    SignedParses(0, m, 10);
    hide Digits, ParseInt;
    assert Zeros(0) + Digits(m, 10) == Digits(m, 10);
  }

  /** Exactly the canonical decimals of the non-negative 64-bit integers are read. */
  lemma CanonicalIntegerExact(s: string, n: int)
    ensures CanonicalInteger(s) == Some(n) <==> 0 <= n < TWO_63 && s == Decimal(n)
  {
    hide Digits;
    if 0 <= n < TWO_63 && s == Decimal(n) {
      SignedParses(0, n, 10);
      assert Zeros(0) + s == s;
    }
  }

  lemma DecimalShape(n: int)
    ensures var s := Decimal(n);
      |s| >= 1 && (n < 0 <==> s[0] == '-') && forall i :: 0 <= i < |s| ==> '0' <= s[i] <= '9' || s[i] == '-'
  {
    var d := Digits(if n < 0 then -n else n, 10);
    DigitsNumeral(if n < 0 then -n else n, 10);
    hide Digits, Numeral;
    assert '0' <= d[0] <= '9';
  }

  /** Decimals tell integers apart. */
  lemma DecimalInjective(m: int, n: int)
    requires Decimal(m) == Decimal(n)
    ensures m == n
  {
    DecimalShape(m);
    DecimalShape(n);
    DigitsNumeral(if m < 0 then -m else m, 10);
    DigitsNumeral(if n < 0 then -n else n, 10);
    hide Digits, Numeral, AllDigits;
    if m < 0 { assert Decimal(m)[1..] == Decimal(n)[1..]; }
  }

  // ----- bytewise order

  predicate Before(a: string, b: string) {
    b != "" && (a == "" || a[0] < b[0] || (a[0] == b[0] && Before(a[1..], b[1..])))
  }

  lemma {:induction false} BeforeTransitive(a: string, b: string, d: string)
    requires Before(a, b) && Before(b, d)
    ensures Before(a, d)
  {
    if a != "" && a[0] == b[0] == d[0] { BeforeTransitive(a[1..], b[1..], d[1..]); }
  }

  lemma {:induction false} BeforeIrreflexive(a: string)
    ensures !Before(a, a)
  {
    if a != "" { BeforeIrreflexive(a[1..]); }
  }

  lemma {:induction false} BeforeTotal(a: string, b: string)
    ensures a == b || Before(a, b) || Before(b, a)
  {
    if a != "" && b != "" && a[0] == b[0] {
      BeforeTotal(a[1..], b[1..]);
      assert a[1..] == b[1..] ==> a == [a[0]] + a[1..] == b;
    }
  }

  /** A text is before another if it is a proper part of its start, or smaller where they first differ. */
  lemma {:induction false} BeforeExact(a: string, b: string)
    ensures Before(a, b) <==> exists i :: 0 <= i <= |a| && i < |b| && a[..i] == b[..i] && (i == |a| || a[i] < b[i])
  {
    if a != "" && b != "" && a[0] == b[0] {
      var x, y := a[1..], b[1..];
      BeforeExact(x, y);
      if Before(x, y) {
        var i :| 0 <= i <= |x| && i < |y| && x[..i] == y[..i] && (i == |x| || x[i] < y[i]);
        assert a[..i + 1] == [a[0]] + x[..i] && b[..i + 1] == [b[0]] + y[..i];
      }
      if i :| 0 <= i <= |a| && i < |b| && a[..i] == b[..i] && (i == |a| || a[i] < b[i]) {
        assert i > 0;
        assert x[..i - 1] == a[..i][1..] == b[..i][1..] == y[..i - 1];
      }
    } else if b != "" {
      assert a[..0] == b[..0];
      if a != "" {
        forall i | 0 < i <= |a| && i < |b|
          ensures a[..i] != b[..i]
        {
          assert a[..i][0] == a[0] && b[..i][0] == b[0];
        }
      }
    }
  }
}
