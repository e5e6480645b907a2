/** Manifest lines and image headers spelled out field by field. */
module ManifestFormat {
  import opened Common
  import opened Text
  import opened ManifestText
  import opened ManifestTar

  // ----- one line

  lemma SevenFields(a: string, b: string, c: string, d: string, e: string, f: string, g: string)
    ensures Join([a, b, c, d, e, f, g], '\t')
         == a + "\t" + b + "\t" + c + "\t" + d + "\t" + e + "\t" + f + "\t" + g
  {
    var all := [a, b, c, d, e, f, g];
    assert all[1..] == [b, c, d, e, f, g];
    assert [b, c, d, e, f, g][1..] == [c, d, e, f, g];
    assert [c, d, e, f, g][1..] == [d, e, f, g];
    assert [d, e, f, g][1..] == [e, f, g];
    assert [e, f, g][1..] == [f, g];
    assert [f, g][1..] == [g];
    assert Join([g], '\t') == g;
    assert Join([f, g], '\t') == f + "\t" + g;
    assert Join([e, f, g], '\t') == e + "\t" + (f + "\t" + g);
    assert Join([d, e, f, g], '\t') == d + "\t" + (e + "\t" + (f + "\t" + g));
    assert Join([c, d, e, f, g], '\t') == c + "\t" + (d + "\t" + (e + "\t" + (f + "\t" + g)));
    assert Join([b, c, d, e, f, g], '\t') == b + "\t" + (c + "\t" + (d + "\t" + (e + "\t" + (f + "\t" + g))));
  }

  /** An entry is printed as its seven fields in this order, with a tab between any two. */
  lemma LineIsFields(e: Entry)
    ensures Line(e) == e.path + "\t" + e.kind + "\t" + PrintMode(e.mode) + "\t" + Decimal(e.uid) + "\t"
                       + Decimal(e.gid) + "\t" + e.link + "\t" + e.hash
  {
    hide Join, PrintMode, Decimal;
    SevenFields(e.path, e.kind, PrintMode(e.mode), Decimal(e.uid), Decimal(e.gid), e.link, e.hash);
  }

  ghost predicate Octal(c: char) {
    '0' <= c <= '7'
  }

  ghost function Value(c: char): int {
    c as int - '0' as int
  }

  lemma OctalDigits(s: string)
    requires AllDigits(s, 8)
    ensures forall i :: 0 <= i < |s| ==> Octal(s[i])
    ensures |s| == 3 ==> Numeral(s, 8) == 64 * Value(s[0]) + 8 * Value(s[1]) + Value(s[2])
    ensures |s| == 4 ==> Numeral(s, 8) == 512 * Value(s[0]) + 64 * Value(s[1]) + 8 * Value(s[2]) + Value(s[3])
  {
    if |s| == 3 {
      ThreeDigits(s);
    } else if |s| == 4 {
      assert s[..3][0] == s[0] && s[..3][1] == s[1] && s[..3][2] == s[2];
      ThreeDigits(s[..3]);
      assert s[..|s| - 1] == s[..3];
    }
  }

  lemma ThreeDigits(s: string)
    requires AllDigits(s, 8) && |s| == 3
    ensures Numeral(s, 8) == 64 * Value(s[0]) + 8 * Value(s[1]) + Value(s[2])
  {
    assert s[..2][..1] == s[..1] && s[..1][..0] == "";
    assert Numeral("", 8) == 0;
    assert Numeral(s[..1], 8) == Value(s[0]);
    assert Numeral(s[..2], 8) == 8 * Value(s[0]) + Value(s[1]);
  }

  lemma PaddedDigits(n: nat, width: nat)
    ensures AllDigits(Padded(n, width), 8) && Numeral(Padded(n, width), 8) == n
  {
    DigitsNumeral(n, 8);
    LeadingZeros(Max(0, width - |Digits(n, 8)|), Digits(n, 8), 8);
  }

  /** A mode of an image is four octal digits of that value; the parser also knows minus and three. */
  lemma ModeIsOctal(m: int)
    requires -0x1FF <= m <= 0x0FFF
    ensures var s := PrintMode(m);
      && |s| == 4
      && (m >= 0 ==>
            && Octal(s[0]) && Octal(s[1]) && Octal(s[2]) && Octal(s[3])
            && m == 512 * Value(s[0]) + 64 * Value(s[1]) + 8 * Value(s[2]) + Value(s[3]))
      && (m < 0 ==>
            && s[0] == '-' && Octal(s[1]) && Octal(s[2]) && Octal(s[3])
            && -m == 64 * Value(s[1]) + 8 * Value(s[2]) + Value(s[3]))
  {
    ModeWidth(m);
    if m < 0 {
      var p := Padded(-m, 3);
      PaddedDigits(-m, 3);
      OctalDigits(p);
      assert PrintMode(m)[1..] == p;
    } else {
      PaddedDigits(m, 4);
      OctalDigits(Padded(m, 4));
    }
  }

  ghost predicate HexDigest(h: string) {
    |h| == 64 && forall i :: 0 <= i < 64 ==> h[i] in "0123456789abcdef"
  }

  lemma DigestIsHex(h: string)
    ensures ValidDigest(h) <==> HexDigest(h)
  {
    var hex := "0123456789abcdef";
    assert forall c: char :: c in hex <==> '0' <= c <= '9' || 'a' <= c <= 'f' by {
      forall c: char | '0' <= c <= '9' || 'a' <= c <= 'f'
        ensures c in hex
      {
        var i := if c <= '9' then c as int - '0' as int else c as int - 'a' as int + 10;
        assert hex[i] == c;
      }
    }
  }

  /** The entries a line can hold, condition by condition. */
  lemma FitsExact(e: Entry, wildcard: bool)
    ensures Fits(e, wildcard) <==>
      && ValidText(e.path)
      && (forall i :: 0 <= i < |Split(e.path, '/')| ==> Split(e.path, '/')[i] !in {"", ".", ".."})
      && e.kind in {"file", "dir", "symlink", "hardlink", "char", "block", "fifo"}
      && -511 <= e.mode <= 4095
      && 0 <= e.uid <= 9_223_372_036_854_775_807 && 0 <= e.gid <= 9_223_372_036_854_775_807
      && (e.kind in {"symlink", "hardlink"} ==> e.link != "-" && ValidText(e.link))
      && (e.kind !in {"symlink", "hardlink"} ==> e.link == "-")
      && (e.kind == "file" ==> HexDigest(e.hash) || (wildcard && e.hash == "*"))
      && (e.kind != "file" ==> e.hash == "-")
  {
    ValidPathExact(e.path);
    DigestIsHex(e.hash);
    hide ValidPath, ValidText, ValidDigest, HexDigest, Split;
  }

  // ----- one header

  /** The kind of an archive member; anything but these nine flags is refused. */
  ghost function KindOf(flag: int): string {
    if flag in {0x00, 0x30} then "file"
    else if flag == 0x31 then "hardlink"
    else if flag == 0x32 then "symlink"
    else if flag == 0x33 then "char"
    else if flag == 0x34 then "block"
    else if flag == 0x35 then "dir"
    else if flag == 0x36 then "fifo"
    else ""
  }

  /** A directory's name loses one slash at its end. */
  ghost function NameOf(h: Header): string {
    if h.typeflag == 0x35 && |h.name| > 0 && h.name[|h.name| - 1] == '/' then h.name[..|h.name| - 1] else h.name
  }

  /**
   * Exactly the headers with one of the known flags, a valid name, a mode of twelve bits, owners that are not
   * negative and, for links, a target, are taken, each as the entry of its own fields.
   */
  lemma HeaderDecides(h: Header)
    ensures EntryOf(h).Some? <==>
      && (h.typeflag == 0 || 0x30 <= h.typeflag <= 0x36)
      && ValidPath(NameOf(h))
      && 0 <= h.mode <= 4095 && 0 <= h.uid && 0 <= h.gid
      && (h.typeflag in {0x31, 0x32} ==> ValidText(h.linkname) && h.linkname != "")
    ensures EntryOf(h).Some? ==>
      var e := EntryOf(h).value;
      && e.path == NameOf(h) && e.kind == KindOf(h.typeflag)
      && e.mode == h.mode && e.uid == h.uid && e.gid == h.gid
      && e.link == (if h.typeflag in {0x31, 0x32} then h.linkname else "-")
      && e.hash == (if h.typeflag in {0x00, 0x30} then h.digest else "-")
  {
    hide ValidPath, ValidText;
  }
}
