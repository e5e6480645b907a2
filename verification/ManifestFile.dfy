/** Whole manifest files: the scanner, the parser's loop, the printer, and how they fit. */
module ManifestFile {
  import opened Common
  import opened Text
  import opened ManifestText

  /** The scanner gives up on a line that does not fit this many bytes together with its newline. */
  const MAX_TOKEN := 0x10_0000

  /** A line loses one carriage return at its end. */
  function Trim(line: string): string {
    if line != "" && line[|line| - 1] == '\r' then line[..|line| - 1] else line
  }

  function AfterLine(text: string): (rest: string)
    ensures text != "" ==> |rest| < |text|
  {
    var n := IndexOf(text, '\n');
    if n < |text| then text[n + 1..] else ""
  }

  function ParseFrom(text: string, previous: string, entries: seq<Entry>, wildcard: bool): Result<seq<Entry>, Error>
    decreases |text|
  {
    if text == "" then Ok(entries)
    else
      var n := IndexOf(text, '\n');
      if n >= MAX_TOKEN then Err(Malformed)
      else
        match ParseLine(Trim(text[..n]), previous, wildcard)
        case None => Err(Malformed)
        case Some(e) => ParseFrom(AfterLine(text), e.path, entries + [e], wildcard)
  }

  function Parse(text: string, wildcard: bool): Result<seq<Entry>, Error> {
    ParseFrom(text, "", [], wildcard)
  }

  function Print(entries: seq<Entry>): string {
    if entries == [] then "" else Line(entries[0]) + "\n" + Print(entries[1..])
  }

  // ----- the loops

  class Scanner {
    const text: string
    var pos: nat
    var failed: bool

    constructor (text: string)
      ensures Valid() && Rest() == text && !failed
    {
      this.text := text;
      pos := 0;
      failed := false;
    }

    ghost predicate Valid()
      reads this
    {
      pos <= |text|
    }

    function Rest(): string
      reads this
      requires Valid()
    {
      text[pos..]
    }

    method Scan() returns (line: Option<string>)
      requires Valid() && !failed
      modifies this
      ensures Valid()
      ensures line.None? <==> old(Rest()) == "" || IndexOf(old(Rest()), '\n') >= 1_048_576
      ensures failed <==> old(Rest()) != "" && line.None?
      ensures line.Some? ==> line.value == Trim(old(Rest())[..IndexOf(old(Rest()), '\n')])
      ensures line.Some? ==> Rest() == AfterLine(old(Rest()))
    {
      if pos == |text| {
        return None;
      }
      var rest := text[pos..];
      var n := IndexOf(rest, '\n');
      if n >= MAX_TOKEN {
        failed := true;
        return None;
      }
      line := Some(Trim(rest[..n]));
      pos := if n < |rest| then pos + n + 1 else |text|;
    }
  }

  method ParseManifest(text: string, wildcard: bool) returns (r: Result<seq<Entry>, Error>)
    ensures r == Parse(text, wildcard)
  {
    hide ParseLine;
    var scanner := new Scanner(text);
    var entries: seq<Entry> := [];
    var previous := "";
    while true
      invariant fresh(scanner) && scanner.Valid() && !scanner.failed
      invariant ParseFrom(scanner.Rest(), previous, entries, wildcard) == Parse(text, wildcard)
      decreases |scanner.Rest()|
    {
      var line := scanner.Scan();
      if line.None? {
        break;
      }
      var current := ParseLine(line.value, previous, wildcard);
      if current.None? {
        return Err(Malformed);
      }
      entries, previous := entries + [current.value], current.value.path;
    }
    if scanner.failed {
      return Err(Malformed);
    }
    return Ok(entries);
  }

  method WriteManifest(entries: seq<Entry>) returns (output: string)
    ensures output == Print(entries)
  {
    output := "";
    var i := 0;
    while i < |entries|
      invariant 0 <= i <= |entries| && output + Print(entries[i..]) == Print(entries)
    {
      assert entries[i..][1..] == entries[i + 1..];
      output := output + (Line(entries[i]) + "\n");
      i := i + 1;
    }
  }

  // ----- print, then parse

  predicate Sorted(entries: seq<Entry>) {
    forall i :: 0 < i < |entries| ==> Before(entries[i - 1].path, entries[i].path)
  }

  predicate UniquePaths(entries: seq<Entry>) {
    forall i, j :: 0 <= i < j < |entries| ==> entries[i].path != entries[j].path
  }

  /** What the printer is given: fitting entries, strictly ordered by path. */
  predicate Listed(entries: seq<Entry>, wildcard: bool) {
    (forall i :: 0 <= i < |entries| ==> Fits(entries[i], wildcard)) && Sorted(entries)
  }

  predicate Short(e: Entry) {
    |Line(e)| < 1_048_576
  }

  lemma JoinAvoids(fields: seq<string>, sep: char, c: char)
    requires |fields| >= 1 && c != sep && forall i :: 0 <= i < |fields| ==> c !in fields[i]
    ensures c !in Join(fields, sep)
  {
    if |fields| > 1 { JoinAvoids(fields[1..], sep, c); }
  }

  lemma LineHasNoBreak(e: Entry, wildcard: bool)
    requires Fits(e, wildcard)
    ensures '\n' !in Line(e) && '\r' !in Line(e)
  {
    PrintedIsPlain(e, wildcard);
    hide Fits, Fields, Join;
    JoinAvoids(Fields(e), '\t', '\n');
    JoinAvoids(Fields(e), '\t', '\r');
  }

  lemma FirstLine(e: Entry, wildcard: bool, rest: string)
    requires Fits(e, wildcard)
    ensures var text := Line(e) + "\n" + rest;
      var n := IndexOf(text, '\n');
      n == |Line(e)| && Trim(text[..n]) == Line(e) && AfterLine(text) == rest
  {
    var line := Line(e);
    LineHasNoBreak(e, wildcard);
    hide Line, Fits, IndexOf;
    IndexUnique(line, '\n', rest);
    var text := line + "\n" + rest;
    assert text == line + ['\n'] + rest;
    assert text[..|line|] == line && text[|line| + 1..] == rest;
  }

  lemma {:induction false} PrintParses(entries: seq<Entry>, previous: string, done: seq<Entry>, wildcard: bool)
    requires Listed(entries, wildcard) && (entries != [] ==> Before(previous, entries[0].path))
    ensures var r := ParseFrom(Print(entries), previous, done, wildcard);
      if forall e :: e in entries ==> Short(e) then r == Ok(done + entries) else r == Err(Malformed)
    decreases |entries|
  {
    hide Line, ParseLine, Fits, Before, Trim, AfterLine, IndexOf;
    if entries == [] {
      assert done + [] == done;
    } else {
      var e, rest := entries[0], entries[1..];
      var text := Line(e) + "\n" + Print(rest);
      FirstLine(e, wildcard, Print(rest));
      LineExact(Line(e), previous, wildcard, e);
      assert Print(entries) == text && text != "";
      assert Short(e) ==>
        ParseFrom(text, previous, done, wildcard) == ParseFrom(Print(rest), e.path, done + [e], wildcard);
      forall i | 0 < i < |rest|
        ensures Before(rest[i - 1].path, rest[i].path)
      {
        assert entries[i] == rest[i - 1] && entries[i + 1] == rest[i];
      }
      assert rest != [] ==> Before(entries[0].path, entries[1].path);
      PrintParses(rest, e.path, done + [e], wildcard);
      assert done + [e] + rest == done + entries;
      assert forall x :: x in entries <==> x == e || x in rest;
    }
  }

  /** A printed list parses back to itself exactly when every line fits the scanner. */
  lemma RoundTrip(entries: seq<Entry>, wildcard: bool)
    requires Listed(entries, wildcard)
    ensures Parse(Print(entries), wildcard) == Ok(entries) <==> forall e :: e in entries ==> Short(e)
    ensures (exists e :: e in entries && !Short(e)) ==> Parse(Print(entries), wildcard) == Err(Malformed)
  {
    hide Fits, Line, Short, Print, ParseFrom;
    if entries != [] {
      assert Fits(entries[0], wildcard);
      PathNotEmpty(entries[0], wildcard);
    }
    PrintParses(entries, "", [], wildcard);
    assert [] + entries == entries;
  }

  lemma PathNotEmpty(e: Entry, wildcard: bool)
    requires Fits(e, wildcard)
    ensures Before("", e.path)
  {
    hide Split, Clean;
  }

  // ----- parse, then print

  /** Whatever parses is a listed sequence of entries, so paths never repeat. */
  lemma {:induction false} ParsedIsListed(text: string, previous: string, done: seq<Entry>, wildcard: bool)
    requires Listed(done, wildcard) && (done != [] ==> previous == done[|done| - 1].path)
    ensures var r := ParseFrom(text, previous, done, wildcard); r.Ok? ==> Listed(r.value, wildcard)
    decreases |text|
  {
    hide ParseLine, Fits, Before, Trim, AfterLine, IndexOf;
    if text != "" && ParseFrom(text, previous, done, wildcard).Ok? {
      var line := Trim(text[..IndexOf(text, '\n')]);
      var e := ParseLine(line, previous, wildcard).value;
      LineExact(line, previous, wildcard, e);
      ParsedIsListed(AfterLine(text), e.path, done + [e], wildcard);
    }
  }

  /** A text with newline-terminated lines and no carriage return. */
  predicate Plain(text: string) {
    (forall i :: 0 <= i < |text| ==> text[i] != '\r') && (text != "" ==> text[|text| - 1] == '\n')
  }

  lemma CutAt(text: string, n: nat)
    requires n < |text| && text[n] == '\n'
    ensures text == text[..n] + "\n" + text[n + 1..]
  {
    assert text == text[..n] + [text[n]] + text[n + 1..];
  }

  lemma PlainLine(text: string)
    requires Plain(text) && text != ""
    ensures var n := IndexOf(text, '\n');
      n < |text| && Trim(text[..n]) == text[..n] && text == text[..n] + "\n" + AfterLine(text) && Plain(AfterLine(text))
  {
    hide IndexOf;
    var n := IndexOf(text, '\n');
    assert text[|text| - 1] == '\n';
    CutAt(text, n);
    var rest := text[n + 1..];
    assert Plain(rest);
    assert n > 0 ==> text[..n][n - 1] == text[n - 1];
  }

  /** On plain text the parser is the printer's inverse in the other direction too. */
  lemma {:induction false} ParsedPrints(text: string, previous: string, done: seq<Entry>, wildcard: bool)
    requires Plain(text) && ParseFrom(text, previous, done, wildcard).Ok?
    ensures var r := ParseFrom(text, previous, done, wildcard).value;
      done <= r && Print(r[|done|..]) == text
    decreases |text|
  {
    hide ParseLine, Line, Fits, Before, Trim, AfterLine, IndexOf, Plain;
    if text == "" {
      assert done[|done|..] == [];
    } else {
      PlainLine(text);
      var line := text[..IndexOf(text, '\n')];
      var e := ParseLine(line, previous, wildcard).value;
      LineExact(line, previous, wildcard, e);
      ParsedPrints(AfterLine(text), e.path, done + [e], wildcard);
      var r := ParseFrom(text, previous, done, wildcard).value;
      assert r[|done|..][0] == e && r[|done|..][1..] == r[|done + [e]|..];
    }
  }

  /** Plain texts and listed entries correspond one to one, up to the scanner's line limit. */
  lemma ParsePrint(text: string, wildcard: bool)
    requires Plain(text) && Parse(text, wildcard).Ok?
    ensures Print(Parse(text, wildcard).value) == text && Listed(Parse(text, wildcard).value, wildcard)
  {
    ParsedPrints(text, "", [], wildcard);
    ParsedIsListed(text, "", [], wildcard);
    var r := Parse(text, wildcard).value;
    assert r[0..] == r;
  }

  lemma {:induction false} OrderedPaths(entries: seq<Entry>, wildcard: bool, i: nat, j: nat)
    requires Listed(entries, wildcard) && i < j < |entries|
    ensures Before(entries[i].path, entries[j].path)
    decreases j - i
  {
    if i + 1 < j {
      OrderedPaths(entries, wildcard, i, j - 1);
      BeforeTransitive(entries[i].path, entries[j - 1].path, entries[j].path);
    }
  }

  // ----- line ends

  lemma LineAt(line: string, rest: string)
    requires '\n' !in line
    ensures var text := line + "\n" + rest;
      IndexOf(text, '\n') == |line| && text[..|line|] == line && AfterLine(text) == rest
  {
    IndexUnique(line, '\n', rest);
    var text := line + "\n" + rest;
    assert text == line + ['\n'] + rest;
    assert text[..|line|] == line && text[|line| + 1..] == rest;
  }

  lemma LastLine(line: string)
    requires '\n' !in line
    ensures IndexOf(line, '\n') == |line| && line[..|line|] == line && AfterLine(line) == ""
  {
  }

  /**
   * A carriage return before the line feed and a missing line feed at the end of the file make no difference,
   * as long as the line is not too long.
   */
  lemma LineEndsDoNotMatter(line: string, rest: string, previous: string, done: seq<Entry>, wildcard: bool)
    requires '\n' !in line && (line != "" ==> line[|line| - 1] != '\r') && |line| + 1 < 1_048_576
    ensures ParseFrom(line + "\r" + "\n" + rest, previous, done, wildcard)
         == ParseFrom(line + "\n" + rest, previous, done, wildcard)
    ensures line != "" ==>
      ParseFrom(line, previous, done, wildcard) == ParseFrom(line + "\n" + "", previous, done, wildcard)
  {
    var returned := line + "\r";
    assert '\n' !in returned && returned[..|returned| - 1] == line;
    LineAt(line, rest);
    LineAt(line, "");
    LineAt(returned, rest);
    LastLine(line);
    assert Trim(returned) == line && Trim(line) == line;
    hide IndexOf, AfterLine, Trim, ParseLine;
    assert returned + "\n" + rest != "" && line + "\n" + rest != "" && line + "\n" + "" != "";
  }

  // ----- the line limit matters

  function Letters(n: nat): (s: string)
    ensures |s| == n && forall i :: 0 <= i < n ==> s[i] == 'a'
  {
    if n == 0 then "" else "a" + Letters(n - 1)
  }

  lemma {:induction false} AsciiIsValid(s: string)
    requires forall i :: 0 <= i < |s| ==> s[i] == 'a'
    ensures ValidText(s)
  {
    if s != "" { AsciiIsValid(s[1..]); }
  }

  lemma LettersArePath(n: nat)
    requires n >= 1
    ensures ValidPath(Letters(n))
  {
    var path := Letters(n);
    hide Letters, ValidUtf8, Clean;
    AsciiIsValid(path);
    assert IndexOf(path, '/') == |path|;
    assert Split(path, '/') == [path];
    hide IndexOf, Split;
    assert path[0] == 'a' && Proper([path]);
    ValidPathExact(path);
  }

  lemma LineAtLeastPath(e: Entry)
    ensures |Line(e)| >= |e.path|
  {
    JoinLength(Fields(e), '\t');
    hide Join, PrintMode, Decimal;
    assert Total(Fields(e)) >= |Fields(e)[0]|;
  }

  /** A directory whose path is as long as the scanner's buffer is printed but cannot be read back. */
  lemma LongPathIsLost()
    ensures exists entries :: Listed(entries, false) && Parse(Print(entries), false) == Err(Malformed)
  {
    var path := Letters(MAX_TOKEN);
    LettersArePath(MAX_TOKEN);
    hide Letters, ValidPath, Print, Parse, Line;
    var e := Entry(path, "dir", 0x1ED, 0, 0, "-", "-");
    assert Fits(e, false);
    LineAtLeastPath(e);
    var entries := [e];
    assert e in entries && !Short(e);
    hide Fits, Short;
    assert Listed(entries, false);
    RoundTrip(entries, false);
  }
}
