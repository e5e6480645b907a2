/** From the headers of an image archive to the entries of its manifest. */
module ManifestTar {
  import opened Common
  import opened Text
  import opened ManifestText
  import opened ManifestFile


  datatype Header = Header(name: string, typeflag: int, linkname: string, mode: int, uid: int, gid: int, digest: string)

  predicate Wellformed(h: Header) {
    ValidDigest(h.digest) && h.uid < TWO_63 && h.gid < TWO_63
  }

  function HeaderKind(flag: int): Option<string> {
    if flag == '0' as int || flag == 0 then Some("file")
    else if flag == '5' as int then Some("dir")
    else if flag == '2' as int then Some("symlink")
    else if flag == '1' as int then Some("hardlink")
    else if flag == '3' as int then Some("char")
    else if flag == '4' as int then Some("block")
    else if flag == '6' as int then Some("fifo")
    else None
  }

  function EntryOf(h: Header): Option<Entry> {
    var kind := HeaderKind(h.typeflag);
    if kind.None? then None
    else
      var slash := kind.value == "dir" && h.name != "" && h.name[|h.name| - 1] == '/';
      var name := if slash then h.name[..|h.name| - 1] else h.name;
      if !ValidPath(name) || h.mode < 0 || h.mode > 0x0FFF || h.uid < 0 || h.gid < 0 then None
      else if IsLink(kind.value) && (!ValidText(h.linkname) || h.linkname == "") then None
      else Some(Entry(name, kind.value, h.mode, h.uid, h.gid,
                      if IsLink(kind.value) then h.linkname else "-",
                      if kind.value == "file" then h.digest else "-"))
  }

  /** The reader refuses only links without a target; the parser also refuses one named by a dash. */
  predicate DashLink(e: Entry) {
    IsLink(e.kind) && e.link == "-"
  }

  lemma EntryFits(h: Header)
    requires Wellformed(h) && EntryOf(h).Some?
    ensures Fits(EntryOf(h).value, false) <==> !DashLink(EntryOf(h).value)
  {
    hide ValidPath, ValidText, ValidDigest;
  }

  // ----- sorting by path

  function Insert(e: Entry, entries: seq<Entry>): seq<Entry> {
    if entries == [] || Before(e.path, entries[0].path) then [e] + entries
    else [entries[0]] + Insert(e, entries[1..])
  }

  function SortByPath(entries: seq<Entry>): seq<Entry> {
    if entries == [] then [] else Insert(entries[0], SortByPath(entries[1..]))
  }

  predicate Fresh(path: string, entries: seq<Entry>) {
    forall i :: 0 <= i < |entries| ==> entries[i].path != path
  }

  lemma {:induction false} InsertKeeps(e: Entry, entries: seq<Entry>)
    ensures multiset(Insert(e, entries)) == multiset(entries) + multiset{e}
  {
    if entries == [] || Before(e.path, entries[0].path) {
    } else {
      InsertKeeps(e, entries[1..]);
      assert entries == [entries[0]] + entries[1..];
    }
  }

  lemma {:induction false} InsertSorts(e: Entry, entries: seq<Entry>)
    requires Sorted(entries) && Fresh(e.path, entries)
    ensures Sorted(Insert(e, entries))
    ensures Insert(e, entries)[0] == e || (entries != [] && Insert(e, entries)[0] == entries[0])
  {
    hide Before;
    if entries != [] && !Before(e.path, entries[0].path) {
      var rest := entries[1..];
      forall i | 0 < i < |rest|
        ensures Before(rest[i - 1].path, rest[i].path)
      {
        assert entries[i] == rest[i - 1] && entries[i + 1] == rest[i];
      }
      InsertSorts(e, rest);
      BeforeTotal(e.path, entries[0].path);
      assert rest != [] ==> Before(entries[0].path, entries[1].path);
    }
  }

  lemma {:induction false} SortKeeps(entries: seq<Entry>)
    ensures multiset(SortByPath(entries)) == multiset(entries)
  {
    if entries != [] {
      SortKeeps(entries[1..]);
      InsertKeeps(entries[0], SortByPath(entries[1..]));
      assert entries == [entries[0]] + entries[1..];
    }
  }

  lemma SameElements(a: seq<Entry>, b: seq<Entry>)
    requires multiset(a) == multiset(b)
    ensures forall e :: e in a <==> e in b
  {
    assert forall e :: e in a <==> e in multiset(a);
    assert forall e :: e in b <==> e in multiset(b);
  }

  lemma {:induction false} SortSorts(entries: seq<Entry>)
    requires UniquePaths(entries)
    ensures Sorted(SortByPath(entries))
  {
    if entries != [] {
      var rest := entries[1..];
      SortSorts(rest);
      SortKeeps(rest);
      SameElements(SortByPath(rest), rest);
      forall i | 0 <= i < |SortByPath(rest)|
        ensures SortByPath(rest)[i].path != entries[0].path
      {
        assert SortByPath(rest)[i] in rest;
      }
      InsertSorts(entries[0], SortByPath(rest));
    }
  }

  // ----- the reader

  /** The entries in archive order, or nothing when a header is refused or a path repeats. */
  function Collect(headers: seq<Header>, entries: seq<Entry>): Option<seq<Entry>>
    decreases |headers|
  {
    if headers == [] then Some(entries)
    else
      var e := EntryOf(headers[0]);
      if e.None? || !Fresh(e.value.path, entries) then None
      else Collect(headers[1..], entries + [e.value])
  }

  lemma FreshAppend(path: string, entries: seq<Entry>, e: Entry)
    ensures Fresh(path, entries + [e]) <==> Fresh(path, entries) && e.path != path
  {
    assert forall i :: 0 <= i < |entries| ==> (entries + [e])[i] == entries[i];
    assert (entries + [e])[|entries|] == e;
  }

  method ReadTar(headers: seq<Header>) returns (r: Option<seq<Entry>>)
    ensures Collect(headers, []).None? ==> r.None?
    ensures Collect(headers, []).Some? ==> r == Some(SortByPath(Collect(headers, []).value))
  {
    hide EntryOf;
    var seen: set<string> := {};
    var entries: seq<Entry> := [];
    var i := 0;
    while i < |headers|
      invariant 0 <= i <= |headers|
      invariant forall p :: p in seen <==> !Fresh(p, entries)
      invariant Collect(headers[i..], entries) == Collect(headers, [])
    {
      var current := EntryOf(headers[i]);
      if current.None? || current.value.path in seen {
        return None;
      }
      assert headers[i..][1..] == headers[i + 1..];
      forall p {
        FreshAppend(p, entries, current.value);
      }
      seen, entries := seen + {current.value.path}, entries + [current.value];
      i := i + 1;
    }
    return Some(SortByPath(entries));
  }

  lemma {:induction false} CollectedFit(headers: seq<Header>, entries: seq<Entry>)
    requires forall i :: 0 <= i < |headers| ==> Wellformed(headers[i])
    requires UniquePaths(entries) && forall e :: e in entries ==> (Fits(e, false) <==> !DashLink(e))
    requires Collect(headers, entries).Some?
    ensures var all := Collect(headers, entries).value;
      UniquePaths(all) && forall e :: e in all ==> (Fits(e, false) <==> !DashLink(e))
    decreases |headers|
  {
    hide EntryOf, Fits, DashLink, Wellformed;
    if headers != [] {
      EntryFits(headers[0]);
      var e := EntryOf(headers[0]).value;
      assert forall x :: x in entries + [e] <==> x in entries || x == e;
      CollectedFit(headers[1..], entries + [e]);
    }
  }

  /**
   * The manifest of an archive: ordered and without repeats; and its text parses back to it exactly
   * when no link points at a file named by a single dash and every line fits the scanner.
   */
  lemma TarManifestParses(headers: seq<Header>)
    requires forall i :: 0 <= i < |headers| ==> Wellformed(headers[i])
    requires Collect(headers, []).Some?
    ensures var entries := SortByPath(Collect(headers, []).value);
      && multiset(entries) == multiset(Collect(headers, []).value)
      && Sorted(entries)
      && (Parse(Print(entries), false) == Ok(entries) <==> forall e :: e in entries ==> !DashLink(e) && Short(e))
  {
    var all := Collect(headers, []).value;
    var entries := SortByPath(all);
    CollectedFit(headers, []);
    SortKeeps(all);
    SortSorts(all);
    SameElements(entries, all);
    hide Fits, DashLink, Short, SortByPath, Collect, Print, Parse, Wellformed, UniquePaths, Sorted;
    SortedParses(entries);
  }

  lemma SortedParses(entries: seq<Entry>)
    requires Sorted(entries) && forall e :: e in entries ==> (Fits(e, false) <==> !DashLink(e))
    ensures Parse(Print(entries), false) == Ok(entries) <==> forall e :: e in entries ==> !DashLink(e) && Short(e)
  {
    hide Fits, DashLink, Short, Print, ParseFrom;
    assert forall i :: 0 <= i < |entries| ==> entries[i] in entries;
    if forall e :: e in entries ==> !DashLink(e) {
      assert Listed(entries, false);
      RoundTrip(entries, false);
    }
    if Parse(Print(entries), false) == Ok(entries) {
      ParsedIsListed(Print(entries), "", [], false);
      assert Listed(entries, false);
      assert forall e :: e in entries ==> Fits(e, false);
    }
  }
}
