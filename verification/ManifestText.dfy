/** The text form of image manifests: one line per entry, printed and parsed. */
module ManifestText {
  import opened Common
  import opened Text

  datatype Entry = Entry(path: string, kind: string, mode: int, uid: int, gid: int, link: string, hash: string)

  datatype Error = Malformed

  // ----- text and paths

  predicate Continuation(s: string, i: nat) {
    i < |s| && 0x80 <= s[i] as int <= 0xBF
  }

  /** The length of the well-formed UTF-8 sequence a text starts with, or 0. */
  function Rune(s: string): (n: nat)
    ensures n <= 4 && n <= |s|
  {
    if s == "" then 0
    else
      var c := s[0] as int;
      if c < 0x80 then 1
      else if 0xC2 <= c <= 0xDF && Continuation(s, 1) then 2
      else if 0xE0 <= c <= 0xEF && Continuation(s, 1) && Continuation(s, 2)
              && (c == 0xE0 ==> s[1] as int >= 0xA0) && (c == 0xED ==> s[1] as int <= 0x9F) then 3
      else if 0xF0 <= c <= 0xF4 && Continuation(s, 1) && Continuation(s, 2) && Continuation(s, 3)
              && (c == 0xF0 ==> s[1] as int >= 0x90) && (c == 0xF4 ==> s[1] as int <= 0x8F) then 4
      else 0
  }

  predicate ValidUtf8(s: string) {
    s == "" || (Rune(s) > 0 && ValidUtf8(s[Rune(s)..]))
  }

  /** In valid UTF-8 the control characters are exactly the bytes below 0x20 and 0x7f. */
  predicate NoControl(s: string) {
    forall i :: 0 <= i < |s| ==> s[i] as int >= 0x20 && s[i] as int != 0x7F
  }

  predicate ValidText(s: string) {
    ValidUtf8(s) && NoControl(s)
  }

  function CleanAll(stack: seq<string>, components: seq<string>): seq<string>
    decreases |components|
  {
    if components == [] then stack
    else
      var c := components[0];
      var next :=
        if c == "" || c == "." then stack
        else if c != ".." then stack + [c]
        else if stack != [] && stack[|stack| - 1] != ".." then stack[..|stack| - 1]
        else stack + [c];
      CleanAll(next, components[1..])
  }

  /** path.Clean of a relative path. */
  function Clean(name: string): string {
    var kept := CleanAll([], Split(name, '/'));
    if kept == [] then "." else Join(kept, '/')
  }

  predicate ValidPath(name: string) {
    && ValidText(name) && name != "" && name != "." && name[0] != '/' && Clean(name) == name
    && forall i :: 0 <= i < |Split(name, '/')| ==> Split(name, '/')[i] != "." && Split(name, '/')[i] != ".."
  }

  predicate Proper(components: seq<string>) {
    forall i :: 0 <= i < |components| ==> components[i] != "" && components[i] != "." && components[i] != ".."
  }

  function Total(fields: seq<string>): nat {
    if fields == [] then 0 else |fields[0]| + Total(fields[1..])
  }

  lemma {:induction false} JoinLength(fields: seq<string>, sep: char)
    requires |fields| >= 1
    ensures |Join(fields, sep)| == Total(fields) + |fields| - 1
  {
    if |fields| == 1 { assert Total(fields[1..]) == 0; } else { JoinLength(fields[1..], sep); }
  }

  lemma {:induction false} TotalAppend(fields: seq<string>, c: string)
    ensures Total(fields + [c]) == Total(fields) + |c|
  {
    if fields == [] {
      assert [c][1..] == [];
    } else {
      TotalAppend(fields[1..], c);
      assert (fields + [c])[1..] == fields[1..] + [c];
    }
  }

  /** Without dots, cleaning only drops the empty components. */
  lemma {:induction false} CleanDropsEmpty(stack: seq<string>, components: seq<string>)
    requires forall i :: 0 <= i < |components| ==> components[i] != "." && components[i] != ".."
    ensures var out := CleanAll(stack, components);
      && Total(out) == Total(stack) + Total(components)
      && |out| <= |stack| + |components|
      && (Proper(components) ==> out == stack + components)
      && (!Proper(components) ==> |out| < |stack| + |components|)
    decreases |components|
  {
    if components == [] {
      assert stack + [] == stack;
    } else {
      var c, rest := components[0], components[1..];
      if c == "" {
        CleanDropsEmpty(stack, rest);
      } else {
        CleanDropsEmpty(stack + [c], rest);
        TotalAppend(stack, c);
        assert components == [c] + rest;
        assert stack + [c] + rest == stack + components;
        assert Proper(rest) ==> Proper(components);
      }
    }
  }

  /** A valid path is exactly a valid text all of whose slash-separated components are real names. */
  lemma ValidPathExact(name: string)
    ensures ValidPath(name) <==> ValidText(name) && Proper(Split(name, '/'))
  {
    var components := Split(name, '/');
    JoinSplit(name, '/');
    JoinLength(components, '/');
    if forall i :: 0 <= i < |components| ==> components[i] != "." && components[i] != ".." {
      CleanDropsEmpty([], components);
      var kept := CleanAll([], components);
      assert [] + components == components;
      if kept != [] { JoinLength(kept, '/'); }
      assert Proper(components) ==> components[0] != "";
    }
  }

  // ----- one line

  function Padded(n: nat, width: nat): (s: string)
    ensures |s| >= width && (|s| == width <==> |Digits(n, 8)| <= width)
  {
    Zeros(Max(0, width - |Digits(n, 8)|)) + Digits(n, 8)
  }

  /** %04o: the sign counts towards the width. */
  function PrintMode(m: int): string {
    if m < 0 then "-" + Padded(-m, 3) else Padded(m, 4)
  }

  function ParseMode(s: string): Option<int> {
    var p := ParseInt(s, 8);
    if p.None? || |s| != 4 || PrintMode(p.value) != s || p.value > 0x0FFF then None else p
  }

  lemma OctalLength(n: nat)
    ensures |Digits(n, 8)| <= 3 <==> n < 512
    ensures |Digits(n, 8)| <= 4 <==> n < 4096
  {
    assert n / 8 / 8 == n / 64 && n / 64 / 8 == n / 512 && n / 512 / 8 == n / 4096;
    assert n >= 8 ==> |Digits(n, 8)| == |Digits(n / 8, 8)| + 1;
    assert n >= 64 ==> |Digits(n / 8, 8)| == |Digits(n / 64, 8)| + 1;
    assert n >= 512 ==> |Digits(n / 64, 8)| == |Digits(n / 512, 8)| + 1;
    assert n >= 4096 ==> |Digits(n / 512, 8)| == |Digits(n / 4096, 8)| + 1;
  }

  lemma ModeWidth(m: int)
    ensures |PrintMode(m)| == 4 <==> -0x1FF <= m <= 0x0FFF
  {
    OctalLength(if m < 0 then -m else m);
    hide Padded, Digits;
  }

  lemma ModeParses(m: int)
    requires -0x1FF <= m <= 0x0FFF
    ensures ParseInt(PrintMode(m), 8) == Some(m)
  {
    hide Digits, Zeros, ParseInt;
    if m < 0 {
      SignedParses(Max(0, 3 - |Digits(-m, 8)|), -m, 8);
    } else {
      SignedParses(Max(0, 4 - |Digits(m, 8)|), m, 8);
    }
  }

  /** Four octal digits, and, although no image has one, a negative mode of three. */
  lemma ParseModeExact(s: string, m: int)
    ensures ParseMode(s) == Some(m) <==> -0x1FF <= m <= 0x0FFF && s == PrintMode(m)
  {
    hide PrintMode, ParseInt;
    ModeWidth(m);
    if -0x1FF <= m <= 0x0FFF { ModeParses(m); }
  }

  predicate ValidDigest(h: string) {
    |h| == 64 && forall i :: 0 <= i < 64 ==> '0' <= h[i] <= '9' || 'a' <= h[i] <= 'f'
  }

  predicate IsLink(kind: string) {
    kind == "symlink" || kind == "hardlink"
  }

  predicate ValidEntry(e: Entry, wildcard: bool) {
    && (e.kind in {"file", "dir", "char", "block", "fifo"} || IsLink(e.kind))
    && (if IsLink(e.kind) then e.link != "-" && ValidText(e.link) else e.link == "-")
    && (if e.kind == "file" then ValidDigest(e.hash) || (wildcard && e.hash == "*") else e.hash == "-")
  }

  function Fields(e: Entry): (r: seq<string>)
    ensures |r| == 7
  {
    [e.path, e.kind, PrintMode(e.mode), Decimal(e.uid), Decimal(e.gid), e.link, e.hash]
  }

  function Line(e: Entry): string {
    Join(Fields(e), '\t')
  }

  function ParseLine(line: string, previous: string, wildcard: bool): Option<Entry> {
    var parts := Split(line, '\t');
    if |parts| != 7 || !ValidPath(parts[0]) || !Before(previous, parts[0]) then None
    else
      var mode, uid, gid := ParseMode(parts[2]), CanonicalInteger(parts[3]), CanonicalInteger(parts[4]);
      if mode.None? || uid.None? || gid.None? then None
      else
        var e := Entry(parts[0], parts[1], mode.value, uid.value, gid.value, parts[5], parts[6]);
        if ValidEntry(e, wildcard) then Some(e) else None
  }

  /** The entries a line can hold. */
  predicate Fits(e: Entry, wildcard: bool) {
    && ValidPath(e.path) && ValidEntry(e, wildcard)
    && -0x1FF <= e.mode <= 0x0FFF
    && 0 <= e.uid < TWO_63 && 0 <= e.gid < TWO_63
  }

  lemma DigitsPlain(n: nat, base: nat)
    requires 2 <= base <= 10
    ensures NoControl(Digits(n, base))
  {
    DigitsNumeral(n, base);
    hide Digits, Numeral;
  }

  lemma ModePlain(m: int)
    ensures NoControl(PrintMode(m))
  {
    DigitsPlain(if m < 0 then -m else m, 8);
    hide Digits;
  }

  lemma PrintedIsPlain(e: Entry, wildcard: bool)
    requires Fits(e, wildcard)
    ensures forall i :: 0 <= i < 7 ==> '\t' !in Fields(e)[i] && '\n' !in Fields(e)[i] && '\r' !in Fields(e)[i]
  {
    hide ValidUtf8, Clean, Split, Digits, PrintMode;
    DigitsPlain(e.uid, 10);
    DigitsPlain(e.gid, 10);
    ModePlain(e.mode);
    assert NoControl(e.kind) && NoControl(e.link) && NoControl(e.hash);
  }

  lemma FittingLineParses(e: Entry, previous: string, wildcard: bool)
    requires Fits(e, wildcard) && Before(previous, e.path)
    ensures ParseLine(Line(e), previous, wildcard) == Some(e)
  {
    PrintedIsPlain(e, wildcard);
    hide ValidPath, ValidEntry, PrintMode, ParseMode, CanonicalInteger, Decimal, Before, Split, Join;
    SplitJoin(Fields(e), '\t');
    ParseModeExact(PrintMode(e.mode), e.mode);
    CanonicalIntegerExact(Decimal(e.uid), e.uid);
    CanonicalIntegerExact(Decimal(e.gid), e.gid);
  }

  lemma ParsedLineFits(line: string, previous: string, wildcard: bool)
    requires ParseLine(line, previous, wildcard).Some?
    ensures var e := ParseLine(line, previous, wildcard).value;
      Fits(e, wildcard) && Before(previous, e.path) && line == Line(e)
  {
    hide ValidPath, ValidEntry, PrintMode, ParseMode, CanonicalInteger, Decimal, Before, Split, Join;
    var e := ParseLine(line, previous, wildcard).value;
    var parts := Split(line, '\t');
    ParseModeExact(parts[2], e.mode);
    CanonicalIntegerExact(parts[3], e.uid);
    CanonicalIntegerExact(parts[4], e.gid);
    JoinSplit(line, '\t');
    assert parts == Fields(e);
  }

  /** A line parses to an entry if and only if the entry fits, follows the previous path and prints to that line. */
  lemma LineExact(line: string, previous: string, wildcard: bool, e: Entry)
    ensures ParseLine(line, previous, wildcard) == Some(e) <==>
      Fits(e, wildcard) && Before(previous, e.path) && line == Line(e)
  {
    hide ParseLine, Fits, Before, Line;
    if ParseLine(line, previous, wildcard) == Some(e) { ParsedLineFits(line, previous, wildcard); }
    if Fits(e, wildcard) && Before(previous, e.path) { FittingLineParses(e, previous, wildcard); }
  }
}
