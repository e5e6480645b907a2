/** Keyset pages over a table that changes between requests. */
module Pagination {
  import opened Common
  import Arith
  import opened BigEndian
  import opened Cursor

  /** A row is known by its sort key; its other columns do not matter to paging. */
  type Row = Position

  type Table = set<Row>

  // ----- the order (created_at, id)

  predicate Less(a: Row, b: Row) {
    a.createdAt < b.createdAt || (a.createdAt == b.createdAt && a.id < b.id)
  }

  predicate Descending(rows: seq<Row>) {
    forall i, j :: 0 <= i < j < |rows| ==> Less(rows[j], rows[i])
  }

  ghost predicate Greatest(m: Row, s: Table) {
    m in s && forall r :: r in s ==> r == m || Less(r, m)
  }

  lemma GreatestExists(s: Table)
    requires s != {}
    ensures exists m :: Greatest(m, s)
  {
    var a :| a in s;
    assert forall r :: r in s <==> r == a || r in s - {a};
    if s - {a} == {} {
      assert Greatest(a, s);
    } else {
      GreatestExists(s - {a});
      var m :| Greatest(m, s - {a});
      assert Greatest(if Less(m, a) then a else m, s);
    }
  }

  // ----- the query

  function Below(t: Table, cursor: Option<Row>): Table {
    set r <- t | cursor.None? || Less(r, cursor.value)
  }

  /** ORDER BY created_at DESC, id DESC LIMIT n. */
  ghost function Top(s: Table, n: nat): (rows: seq<Row>)
    ensures Descending(rows) && |rows| == Min(n, |s|)
    ensures forall r :: r in rows ==> r in s
    ensures forall r, q :: r in s && r !in rows && q in rows ==> Less(r, q)
    decreases n
  {
    if n == 0 || s == {} then []
    else
      GreatestExists(s);
      var m :| Greatest(m, s);
      var rest := Top(s - {m}, n - 1);
      assert forall i :: 0 <= i < |rest| ==> rest[i] in rest;
      assert forall r :: r in [m] + rest <==> r == m || r in rest;
      [m] + rest
  }

  // ----- one page

  datatype Page = Page(items: seq<Row>, next: string)

  /** One list and one workspace with their keys. */
  datatype Env = Env(codec: Codec, mac: Mac, key: Digest, workspace: Uuid)

  predicate Usable(e: Env) {
    (e.codec == DELIVERY || e.codec == ENDPOINT) && e.key != ZERO_KEY && e.workspace != NIL
  }

  /** A row whose cursor survives the codec. */
  predicate Representable(r: Row) {
    r.id != NIL && IsInt64(r.createdAt)
  }

  /** `limit + 1` rows cut to a page; the extra row only decides whether there is a next cursor. */
  function Cut(e: Env, rows: seq<Row>, limit: nat): Result<Page, ()>
    requires limit >= 1
  {
    if |rows| <= limit then Ok(Page(rows, ""))
    else
      match Encode(e.codec, e.mac, e.key, e.workspace, rows[limit - 1])
      case Err(_) => Err(())
      case Ok(next) => Ok(Page(rows[..limit], next))
  }

  ghost function ListPage(e: Env, t: Table, limit: int, raw: string): Result<Page, ()> {
    if limit < 1 || limit > 100 then Err(())
    else
      match Decode(e.codec, e.mac, e.key, e.workspace, raw)
      case Err(_) => Err(())
      case Ok(cursor) => Cut(e, Top(Below(t, cursor), limit + 1), limit)
  }

  /** The delivery list: collect every row, then truncate. */
  method CollectThenTruncate(e: Env, rows: seq<Row>, limit: nat) returns (r: Result<Page, ()>)
    requires limit >= 1
    ensures r == Cut(e, rows, limit)
  {
    var items: seq<Row> := [];
    var i := 0;
    while i < |rows|
      invariant 0 <= i <= |rows| && items == rows[..i]
    {
      items := items + [rows[i]];
      i := i + 1;
    }
    assert items == rows;
    var next := "";
    if |items| > limit {
      items := items[..limit];
      var encoded := Encode(e.codec, e.mac, e.key, e.workspace, items[|items| - 1]);
      if encoded.Err? {
        return Err(());
      }
      next := encoded.value;
    }
    return Ok(Page(items, next));
  }

  /** The endpoint list: stop at the extra row and point back at the one before it. */
  method StopAtExtraRow(e: Env, rows: seq<Row>, limit: nat) returns (r: Result<Page, ()>)
    requires limit >= 1
    ensures r == Cut(e, rows, limit)
  {
    var items: seq<Row> := [];
    var next := "";
    var i := 0;
    while i < |rows|
      invariant 0 <= i <= |rows| && i <= limit && items == rows[..i] && next == ""
    {
      if i == limit {
        var encoded := Encode(e.codec, e.mac, e.key, e.workspace, rows[i - 1]);
        if encoded.Err? {
          return Err(());
        }
        return Ok(Page(items, encoded.value));
      }
      items := items + [rows[i]];
      i := i + 1;
    }
    assert items == rows;
    return Ok(Page(items, next));
  }

  // ----- a walk

  /** One request of the walk: the table it sees and the limit it asks for. */
  datatype Visit = Visit(table: Table, limit: int)

  datatype Walk = Failed | Walk(items: seq<Row>, finished: bool)

  /** Following next cursors from `raw`, one visit per page, until there is none. */
  ghost function WalkFrom(e: Env, raw: string, visits: seq<Visit>): Walk
    decreases |visits|
  {
    if visits == [] then Walk([], false)
    else
      match ListPage(e, visits[0].table, visits[0].limit, raw)
      case Err(_) => Failed
      case Ok(page) =>
        if page.next == "" then Walk(page.items, true)
        else
          match WalkFrom(e, page.next, visits[1..])
          case Failed => Failed
          case Walk(items, finished) => Walk(page.items + items, finished)
  }

  ghost predicate GoodVisit(v: Visit) {
    1 <= v.limit <= 100 && forall r :: r in v.table ==> Representable(r)
  }

  ghost predicate GoodVisits(visits: seq<Visit>) {
    forall i :: 0 <= i < |visits| ==> GoodVisit(visits[i])
  }

  ghost predicate Throughout(r: Row, visits: seq<Visit>) {
    forall i :: 0 <= i < |visits| ==> r in visits[i].table
  }

  ghost predicate Sometime(r: Row, visits: seq<Visit>) {
    exists i :: 0 <= i < |visits| && r in visits[i].table
  }

  predicate Under(r: Row, cursor: Option<Row>) {
    cursor.None? || Less(r, cursor.value)
  }

  /** The text the walk carries for a cursor. */
  predicate Stands(e: Env, raw: string, cursor: Option<Row>) {
    Decode(e.codec, e.mac, e.key, e.workspace, raw) == Ok(cursor)
  }

  /** The cut of the rows: complete when they fit, else a full page and a cursor that stands for its last row. */
  lemma CutShape(e: Env, rows: seq<Row>, limit: nat)
    requires Usable(e) && 1 <= limit && (|rows| > limit ==> Representable(rows[limit - 1]))
    ensures Cut(e, rows, limit).Ok?
    ensures |rows| <= limit ==> Cut(e, rows, limit).value == Page(rows, "")
    ensures |rows| > limit ==> Cut(e, rows, limit).value.items == rows[..limit]
    ensures |rows| > limit ==> Cut(e, rows, limit).value.next != ""
    ensures |rows| > limit ==> Stands(e, Cut(e, rows, limit).value.next, Some(rows[limit - 1]))
  {
    hide Decode;
    if |rows| > limit {
      EncodedDecodes(e.codec, e.mac, e.key, e.workspace, rows[limit - 1]);
      Int64RoundTrip(rows[limit - 1].createdAt);
    }
  }

  /** A page of a table of representable rows: its shape, and the cursor it hands on. */
  lemma PageShape(e: Env, t: Table, limit: int, raw: string, cursor: Option<Row>)
    requires Usable(e) && 1 <= limit <= 100 && Stands(e, raw, cursor)
    requires forall r :: r in t ==> Representable(r)
    ensures var rows := Top(Below(t, cursor), limit + 1);
      var page := ListPage(e, t, limit, raw);
      && page.Ok?
      && (|rows| <= limit ==> page.value == Page(rows, ""))
      && (|rows| > limit ==> page.value.items == rows[..limit] && page.value.next != "")
      && (|rows| > limit ==> Stands(e, page.value.next, Some(rows[limit - 1])))
  {
    hide Encode, Decode, Cut, Top;
    var rows := Top(Below(t, cursor), limit + 1);
    assert |rows| > limit ==> rows[limit - 1] in rows;
    CutShape(e, rows, limit);
  }

  /** Later, or at the same instant with the greater id: what a list shows first. */
  ghost predicate Precedes(a: Row, b: Row) {
    b.createdAt < a.createdAt || (b.createdAt == a.createdAt && b.id < a.id)
  }

  /** The first ones of a set, as many as the limit allows. */
  ghost predicate IsFirst(items: seq<Row>, s: Table, limit: nat) {
    && |items| == (if |s| <= limit then |s| else limit)
    && (forall i, j :: 0 <= i < j < |items| ==> Precedes(items[i], items[j]))
    && (forall r :: r in items ==> r in s)
    && (forall r, q :: r in s && r !in items && q in items ==> Precedes(q, r))
  }

  /**
   * One page, row by row: of the rows after the cursor it holds the first ones, in order, as many as the
   * limit allows; there is a next cursor exactly when that leaves rows out, and it stands for the last one.
   * Limits outside 1..100 and texts that are no cursor are refused.
   */
  lemma PageExact(e: Env, t: Table, limit: int, raw: string, remaining: Table)
    requires Usable(e) && forall r :: r in t ==> Representable(r)
    requires var from := Decode(e.codec, e.mac, e.key, e.workspace, raw);
      from.Ok? ==> forall r :: r in remaining <==> r in t && (from.value.Some? ==> Precedes(from.value.value, r))
    ensures var from := Decode(e.codec, e.mac, e.key, e.workspace, raw);
      var p := ListPage(e, t, limit, raw);
      && (p.Ok? <==> 1 <= limit <= 100 && from.Ok?)
      && (p.Ok? ==>
            var items := p.value.items;
            && IsFirst(items, remaining, limit)
            && (p.value.next == "" <==> |remaining| <= limit)
            && (p.value.next != "" ==>
                  Decode(e.codec, e.mac, e.key, e.workspace, p.value.next) == Ok(Some(items[limit - 1]))))
  {
    var from := Decode(e.codec, e.mac, e.key, e.workspace, raw);
    if 1 <= limit <= 100 && from.Ok? {
      PageShape(e, t, limit, raw, from.value);
      hide Decode, Encode, Representable, Top, Precedes;
      assert Below(t, from.value) == remaining by { PrecedesIsLess(); }
      FirstOnes(remaining, limit);
      hide Below, ListPage, Usable;
    }
  }

  lemma PrecedesIsLess()
    ensures forall a, b :: Precedes(a, b) <==> Less(b, a)
  {
  }

  lemma FirstOnes(s: Table, limit: nat)
    requires limit >= 1
    ensures var rows := Top(s, limit + 1);
      && (|rows| <= limit <==> |s| <= limit)
      && IsFirst(if |rows| <= limit then rows else rows[..limit], s, limit)
  {
    hide Top, Less, Precedes;
    PrecedesIsLess();
    if |Top(s, limit + 1)| > limit {
      CutOfTop(s, limit);
    } else {
      AllOfTop(s, limit + 1);
    }
  }

  lemma CutOfTop(s: Table, limit: nat)
    requires 1 <= limit < |Top(s, limit + 1)|
    ensures var rows := Top(s, limit + 1)[..limit];
      && Descending(rows) && (forall r :: r in rows ==> r in s)
      && (forall r, q :: r in s && r !in rows && q in rows ==> Less(r, q))
  {
    var all := Top(s, limit + 1);
    var rows := all[..limit];
    assert forall i :: 0 <= i < limit ==> rows[i] == all[i] && all[i] in all;
    forall r, q | r in s && r !in rows && q in rows
      ensures Less(r, q)
    {
      RestIsBelow(s, limit, r);
      var i :| 0 <= i < limit && rows[i] == q;
      if i < limit - 1 { LessTransitive(r, all[limit - 1], q); }
    }
  }

  lemma LessTransitive(a: Row, b: Row, d: Row)
    requires Less(a, b) && Less(b, d)
    ensures Less(a, d)
  {
  }

  lemma DescendingAppend(a: seq<Row>, b: seq<Row>)
    requires Descending(a) && Descending(b) && a != []
    requires forall r :: r in b ==> Less(r, a[|a| - 1])
    ensures Descending(a + b)
  {
    var s := a + b;
    forall i, j | 0 <= i < j < |s|
      ensures Less(s[j], s[i])
    {
      if i < |a| <= j {
        assert s[j] in b;
        if i < |a| - 1 { LessTransitive(s[j], a[|a| - 1], a[i]); }
      }
    }
  }

  lemma AllOfTop(s: Table, n: nat)
    requires |s| <= n
    ensures forall r :: r in s ==> r in Top(s, n)
  {
    var rows := Top(s, n);
    DescendingSize(rows);
    if exists r :: r in s && r !in rows {
      var r :| r in s && r !in rows;
      SubsetSmaller(RowSet(rows), s, r);
    }
  }

  lemma SubsetSmaller(a: Table, b: Table, r: Row)
    requires a <= b && r in b && r !in a
    ensures |a| < |b|
  {
    assert a <= b - {r};
    assert |b - {r}| == |b| - 1;
    Arith.SubsetSize(a, b - {r});
  }

  function RowSet(rows: seq<Row>): Table {
    set r | r in rows
  }

  lemma {:induction false} DescendingSize(rows: seq<Row>)
    requires Descending(rows)
    ensures |RowSet(rows)| == |rows|
  {
    if rows != [] {
      DescendingSize(rows[1..]);
      assert rows[0] !in RowSet(rows[1..]);
      assert RowSet(rows) == {rows[0]} + RowSet(rows[1..]);
    }
  }

  /** What a full page leaves out lies below its last row. */
  lemma RestIsBelow(s: Table, limit: nat, r: Row)
    requires 1 <= limit < |Top(s, limit + 1)| && r in s
    ensures r in Top(s, limit + 1)[..limit] || Less(r, Top(s, limit + 1)[limit - 1])
  {
    var rows := Top(s, limit + 1);
    if r in rows {
      var i :| 0 <= i < |rows| && rows[i] == r;
      assert i < limit ==> rows[..limit][i] == r;
    } else {
      assert rows[limit - 1] in rows;
    }
  }

  ghost predicate Covers(items: seq<Row>, visits: seq<Visit>, cursor: Option<Row>) {
    forall r :: Throughout(r, visits) && Under(r, cursor) ==> r in items
  }

  ghost predicate DrawnFrom(items: seq<Row>, visits: seq<Visit>, cursor: Option<Row>) {
    forall r :: r in items ==> Under(r, cursor) && Sometime(r, visits)
  }

  lemma JoinDrawn(t: Table, limit: nat, cursor: Option<Row>, visits: seq<Visit>, tail: seq<Row>)
    requires visits != [] && visits[0].table == t
    requires 1 <= limit < |Top(Below(t, cursor), limit + 1)|
    requires DrawnFrom(tail, visits[1..], Some(Top(Below(t, cursor), limit + 1)[limit - 1]))
    ensures DrawnFrom(Top(Below(t, cursor), limit + 1)[..limit] + tail, visits, cursor)
  {
    var rows := Top(Below(t, cursor), limit + 1);
    var last := rows[limit - 1];
    assert last in rows && last in Below(t, cursor);
    forall r | r in rows[..limit] + tail
      ensures Under(r, cursor) && Sometime(r, visits)
    {
      if r in rows[..limit] {
        assert r in rows && r in visits[0].table;
      } else {
        assert Less(r, last);
        if cursor.Some? { LessTransitive(r, last, cursor.value); }
        var i :| 0 <= i < |visits[1..]| && r in visits[1..][i].table;
        assert r in visits[i + 1].table;
      }
    }
  }

  lemma JoinCovers(t: Table, limit: nat, cursor: Option<Row>, visits: seq<Visit>, tail: seq<Row>)
    requires visits != [] && visits[0].table == t
    requires 1 <= limit < |Top(Below(t, cursor), limit + 1)|
    requires Covers(tail, visits[1..], Some(Top(Below(t, cursor), limit + 1)[limit - 1]))
    ensures Covers(Top(Below(t, cursor), limit + 1)[..limit] + tail, visits, cursor)
  {
    var rows := Top(Below(t, cursor), limit + 1);
    forall r | Throughout(r, visits) && Under(r, cursor)
      ensures r in rows[..limit] + tail
    {
      assert r in visits[0].table;
      RestIsBelow(Below(t, cursor), limit, r);
      assert Throughout(r, visits[1..]);
    }
  }

  lemma LastPage(t: Table, limit: nat, cursor: Option<Row>, visits: seq<Visit>)
    requires visits != [] && visits[0].table == t
    requires |Top(Below(t, cursor), limit + 1)| <= limit
    ensures DrawnFrom(Top(Below(t, cursor), limit + 1), visits, cursor)
    ensures Covers(Top(Below(t, cursor), limit + 1), visits, cursor)
  {
    var rows := Top(Below(t, cursor), limit + 1);
    AllOfTop(Below(t, cursor), limit + 1);
    assert forall r :: r in Below(t, cursor) <==> r in t && Under(r, cursor);
    hide Top, Below, Under, Less;
    forall r | r in rows
      ensures Under(r, cursor) && Sometime(r, visits)
    {
      assert r in visits[0].table;
    }
    forall r | Throughout(r, visits) && Under(r, cursor)
      ensures r in rows
    {
      assert r in visits[0].table;
    }
  }

  /** A walk never fails, lists rows in order, and once finished has met every row that stayed. */
  lemma {:induction false} WalkEnumerates(e: Env, raw: string, cursor: Option<Row>, visits: seq<Visit>)
    requires Usable(e) && GoodVisits(visits) && Stands(e, raw, cursor)
    ensures var w := WalkFrom(e, raw, visits);
      && w.Walk? && Descending(w.items)
      && DrawnFrom(w.items, visits, cursor)
      && (w.finished ==> visits != [] && Covers(w.items, visits, cursor))
    decreases |visits|
  {
    hide Top, Below, ListPage, Stands, Representable, Covers, DrawnFrom;
    if visits == [] {
      EmptyDrawn(visits, cursor);
    } else {
      var t, limit := visits[0].table, visits[0].limit;
      var rows := Top(Below(t, cursor), limit + 1);
      PageShape(e, t, limit, raw, cursor);
      if |rows| <= limit {
        LastPage(t, limit, cursor, visits);
      } else {
        var page := ListPage(e, t, limit, raw).value;
        var last := rows[limit - 1];
        var tail := WalkFrom(e, page.next, visits[1..]);
        WalkEnumerates(e, page.next, Some(last), visits[1..]);
        JoinDrawn(t, limit, cursor, visits, tail.items);
        DrawnIsBelow(tail.items, visits[1..], last);
        DescendingAppend(rows[..limit], tail.items);
        if tail.finished { JoinCovers(t, limit, cursor, visits, tail.items); }
      }
    }
  }

  lemma EmptyDrawn(visits: seq<Visit>, cursor: Option<Row>)
    ensures DrawnFrom([], visits, cursor)
  {
  }

  lemma DrawnIsBelow(items: seq<Row>, visits: seq<Visit>, last: Row)
    requires DrawnFrom(items, visits, Some(last))
    ensures forall r :: r in items ==> Less(r, last)
  {
  }

  /**
   * The whole list, started without a cursor: strictly descending, so nothing twice; only rows that
   * were there at some page; and, once there is no next cursor, every row that was there at all pages.
   */
  lemma ExactlyOnce(e: Env, visits: seq<Visit>)
    requires Usable(e) && GoodVisits(visits)
    ensures var w := WalkFrom(e, "", visits);
      && w.Walk?
      && (forall i, j :: 0 <= i < j < |w.items| ==> Precedes(w.items[i], w.items[j]))
      && (forall r :: r in w.items ==> exists i :: 0 <= i < |visits| && r in visits[i].table)
      && (w.finished ==> forall r :: (forall i :: 0 <= i < |visits| ==> r in visits[i].table) ==> r in w.items)
      && (forall i, j :: 0 <= i < j < |w.items| ==> w.items[i] != w.items[j])
  {
    WalkEnumerates(e, "", None, visits);
    hide WalkFrom, Usable, GoodVisits;
    var w := WalkFrom(e, "", visits);
    forall r | forall i :: 0 <= i < |visits| ==> r in visits[i].table
      ensures w.finished ==> r in w.items
    {
      assert Throughout(r, visits);
    }
  }

  // ----- how many pages a table at rest takes

  function CeilDiv(n: nat, d: nat): nat
    requires d >= 1
  {
    (n + d - 1) / d
  }

  /** n copies of one visit. */
  function Repeat(v: Visit, n: nat): (vs: seq<Visit>)
    ensures |vs| == n && forall i :: 0 <= i < n ==> vs[i] == v
  {
    if n == 0 then [] else [v] + Repeat(v, n - 1)
  }

  /** A full page and the rows below its last one make up the whole set. */
  lemma PageSplits(s: Table, limit: nat)
    requires 1 <= limit < |Top(s, limit + 1)|
    ensures var rows := Top(s, limit + 1);
      && (forall r :: r in s ==> r in rows[..limit] || Less(r, rows[limit - 1]))
      && (forall r :: r in rows[..limit] ==> r in s && !Less(r, rows[limit - 1]))
  {
    var rows := Top(s, limit + 1);
    forall r | r in s
      ensures r in rows[..limit] || Less(r, rows[limit - 1])
    {
      RestIsBelow(s, limit, r);
    }
    forall r | r in rows[..limit]
      ensures r in s && !Less(r, rows[limit - 1])
    {
      var i :| 0 <= i < limit && rows[..limit][i] == r;
      assert r in rows;
      assert i < limit - 1 ==> Less(rows[limit - 1], rows[i]);
    }
  }

  lemma BelowBelow(t: Table, cursor: Option<Row>, last: Row)
    requires last in Below(t, cursor)
    ensures Below(t, Some(last)) == Below(Below(t, cursor), Some(last))
  {
    forall r | r in t && Less(r, last)
      ensures Under(r, cursor)
    {
      if cursor.Some? { LessTransitive(r, last, cursor.value); }
    }
  }

  lemma TopRest(t: Table, limit: nat, cursor: Option<Row>)
    requires 1 <= limit < |Top(Below(t, cursor), limit + 1)|
    ensures |Below(t, Some(Top(Below(t, cursor), limit + 1)[limit - 1]))| == |Below(t, cursor)| - limit
  {
    var s := Below(t, cursor);
    var rows := Top(s, limit + 1);
    var page, last := rows[..limit], rows[limit - 1];
    assert last in rows;
    BelowBelow(t, cursor, last);
    PageSplits(s, limit);
    DescendingSize(page);
    hide Top, Less;
    var rest := Below(s, Some(last));
    assert forall r :: r in RowSet(page) ==> r in page;
    assert s == RowSet(page) + rest;
    assert RowSet(page) !! rest;
  }

  /** On a table of n rows at rest the walk needs exactly max(1, ceil(n / limit)) pages. */
  lemma {:induction false} PagesNeeded(e: Env, raw: string, cursor: Option<Row>, v: Visit, pages: nat)
    requires Usable(e) && GoodVisit(v) && Stands(e, raw, cursor)
    ensures var n := |Below(v.table, cursor)|;
      WalkFrom(e, raw, Repeat(v, pages)).Walk? &&
      (WalkFrom(e, raw, Repeat(v, pages)).finished <==> pages >= Max(1, CeilDiv(n, v.limit)))
    decreases pages
  {
    hide Top, Below, ListPage, Stands, Representable, CeilDiv;
    var n := |Below(v.table, cursor)|;
    if pages > 0 {
      var visits := Repeat(v, pages);
      var rows := Top(Below(v.table, cursor), v.limit + 1);
      PageShape(e, v.table, v.limit, raw, cursor);
      assert visits[0] == v && visits[1..] == Repeat(v, pages - 1);
      if |rows| <= v.limit {
        CeilSmall(n, v.limit);
      } else {
        var page := ListPage(e, v.table, v.limit, raw).value;
        TopRest(v.table, v.limit, cursor);
        PagesNeeded(e, page.next, Some(rows[v.limit - 1]), v, pages - 1);
        CeilStep(n, v.limit);
      }
    }
  }

  /** The same from the start of the list. */
  lemma PagesOfTable(e: Env, v: Visit, pages: nat)
    requires Usable(e) && GoodVisit(v)
    ensures WalkFrom(e, "", Repeat(v, pages)).Walk?
    ensures WalkFrom(e, "", Repeat(v, pages)).finished <==> pages >= Max(1, CeilDiv(|v.table|, v.limit))
  {
    assert Below(v.table, None) == v.table;
    PagesNeeded(e, "", None, v, pages);
  }

  lemma CeilSmall(n: nat, d: nat)
    requires d >= 1 && n <= d
    ensures CeilDiv(n, d) <= 1
  {
    if n == 0 { Arith.DivUnique(d - 1, 0, d - 1, d); } else { Arith.DivUnique(n + d - 1, 1, n - 1, d); }
  }

  lemma CeilStep(n: nat, d: nat)
    requires d >= 1 && n > d
    ensures CeilDiv(n, d) == CeilDiv(n - d, d) + 1 && CeilDiv(n - d, d) >= 1
  {
    var q, r := (n - 1) / d, (n - 1) % d;
    assert n - 1 == q * d + r;
    Arith.DivUnique(n + d - 1, q + 1, r, d);
    Arith.DivUnique(n - d + d - 1, q, r, d);
    if q <= 0 { Arith.MulLe(q, 0, d); }
  }
}
