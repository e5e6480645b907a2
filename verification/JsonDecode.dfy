/** Duplicate-free decoding of a JSON token stream, and the structure check of a published event. */
module JsonDecode {
  import opened Common

  datatype Atom = Text(text: string) | Number(literal: string) | Flag(on: bool) | Null

  /** What the tokenizer hands out. Unreadable stands for any input it refuses. */
  datatype Token = Scalar(atom: Atom) | OpenObject | CloseObject | OpenArray | CloseArray | Unreadable

  /** Decoded values: an object is a map, so the order of its members is gone. */
  datatype Value = Leaf(atom: Atom) | Array(items: seq<Value>) | Object(members: map<string, Value>)

  datatype Error = Invalid

  type Outcome = Result<(Value, seq<Token>), Error>

  // ----- the specification: a recursive-descent parser

  predicate More(ts: seq<Token>) {
    |ts| > 0 && ts[0] != CloseObject && ts[0] != CloseArray
  }

  function Parse(ts: seq<Token>): (r: Outcome)
    ensures r.Ok? ==> |r.value.1| < |ts|
    decreases |ts|, 0
  {
    if |ts| == 0 then Err(Invalid)
    else match ts[0]
      case Scalar(a) => Ok((Leaf(a), ts[1..]))
      case OpenObject => ParseMembers(ts[1..], map[])
      case OpenArray => ParseItems(ts[1..], [])
      case _ => Err(Invalid)
  }

  function ParseItems(ts: seq<Token>, items: seq<Value>): (r: Outcome)
    ensures r.Ok? ==> |r.value.1| < |ts|
    decreases |ts|, 1
  {
    if More(ts) then
      var child := Parse(ts);
      if child.Err? then child else ParseItems(child.value.1, items + [child.value.0])
    else if |ts| > 0 && ts[0] == CloseArray then Ok((Array(items), ts[1..]))
    else Err(Invalid)
  }

  function ParseMembers(ts: seq<Token>, members: map<string, Value>): (r: Outcome)
    ensures r.Ok? ==> |r.value.1| < |ts|
    decreases |ts|, 1
  {
    if More(ts) then
      if !(ts[0].Scalar? && ts[0].atom.Text?) || ts[0].atom.text in members then Err(Invalid)
      else
        var child := Parse(ts[1..]);
        if child.Err? then child else ParseMembers(child.value.1, members[ts[0].atom.text := child.value.0])
    else if |ts| > 0 && ts[0] == CloseObject then Ok((Object(members), ts[1..]))
    else Err(Invalid)
  }

  // ----- the decoder

  class Decoder {
    const tokens: seq<Token>
    var pos: nat

    constructor (tokens: seq<Token>)
      ensures Valid() && this.tokens == tokens && pos == 0
    {
      this.tokens := tokens;
      pos := 0;
    }

    ghost predicate Valid()
      reads this
    {
      pos <= |tokens|
    }

    function Rest(): seq<Token>
      reads this
      requires Valid()
    {
      tokens[pos..]
    }

    method Token() returns (r: Option<Token>)
      requires Valid()
      modifies this
      ensures Valid()
      ensures r.Some? <==> |old(Rest())| > 0 && old(Rest())[0] != Unreadable
      ensures r.Some? ==> r.value == old(Rest())[0] && Rest() == old(Rest())[1..]
      ensures r.None? ==> pos == old(pos)
    {
      if pos == |tokens| || tokens[pos] == Unreadable {
        return None;
      }
      r := Some(tokens[pos]);
      pos := pos + 1;
    }

    /** The recursive decoder with its two loops computes Parse and consumes exactly what Parse consumes. */
    method DecodeUnique() returns (r: Result<Value, Error>)
      requires Valid()
      modifies this
      ensures Valid()
      ensures Parse(old(Rest())).Err? ==> r.Err?
      ensures Parse(old(Rest())).Ok? ==> r == Ok(Parse(old(Rest())).value.0) && Rest() == Parse(old(Rest())).value.1
      decreases |tokens| - pos, 0
    {
      ghost var start := Rest();
      var token := Token();
      if token.None? {
        return Err(Invalid);
      }
      match token.value {
        case Scalar(a) => r := Ok(Leaf(a));
        case OpenObject => r := Members(start);
        case OpenArray => r := Items(start);
        case _ => r := Err(Invalid);
      }
    }

    method Members(ghost start: seq<Token>) returns (r: Result<Value, Error>)
      requires Valid() && |start| > 0 && start[0] == OpenObject && Rest() == start[1..]
      modifies this
      ensures Valid()
      ensures Parse(start).Err? ==> r.Err?
      ensures Parse(start).Ok? ==> r == Ok(Parse(start).value.0) && Rest() == Parse(start).value.1
      decreases |tokens| - pos, 1
    {
      ghost var first := pos;
      var value: map<string, Value> := map[];
      while More(Rest())
        invariant Valid() && pos >= first
        invariant ParseMembers(Rest(), value) == Parse(start)
        decreases |tokens| - pos
      {
        ghost var before := Rest();
        var key := Token();
        if key.None? || !(key.value.Scalar? && key.value.atom.Text?) {
          return Err(Invalid);
        }
        var name := key.value.atom.text;
        if name in value {
          return Err(Invalid);
        }
        var child := DecodeUnique();
        if child.Err? {
          return child;
        }
        assert Parse(before[1..]).Ok?;
        value := value[name := child.value];
      }
      var closing := Token();
      if closing != Some(CloseObject) {
        return Err(Invalid);
      }
      return Ok(Object(value));
    }

    method Items(ghost start: seq<Token>) returns (r: Result<Value, Error>)
      requires Valid() && |start| > 0 && start[0] == OpenArray && Rest() == start[1..]
      modifies this
      ensures Valid()
      ensures Parse(start).Err? ==> r.Err?
      ensures Parse(start).Ok? ==> r == Ok(Parse(start).value.0) && Rest() == Parse(start).value.1
      decreases |tokens| - pos, 1
    {
      ghost var first := pos;
      var value: seq<Value> := [];
      while More(Rest())
        invariant Valid() && pos >= first
        invariant ParseItems(Rest(), value) == Parse(start)
        decreases |tokens| - pos
      {
        ghost var before := Rest();
        var child := DecodeUnique();
        if child.Err? {
          return child;
        }
        assert Parse(before).Ok?;
        value := value + [child.value];
      }
      var closing := Token();
      if closing != Some(CloseArray) {
        return Err(Invalid);
      }
      return Ok(Array(value));
    }

    /** The check before canonicalization: one duplicate-free object, nothing after it, a type and data. */
    method ValidateStructure() returns (r: Result<string, Error>)
      requires Valid()
      modifies this
      ensures Valid()
      ensures r == Structure(old(Rest()))
    {
      var decoded := DecodeUnique();
      if decoded.Err? {
        return Err(Invalid);
      }
      if pos != |tokens| {
        return Err(Invalid);
      }
      if !decoded.value.Object? {
        return Err(Invalid);
      }
      var value := decoded.value.members;
      if !("type" in value && value["type"].Leaf? && value["type"].atom.Text?) {
        return Err(Invalid);
      }
      var eventType := value["type"].atom.text;
      if |eventType| > 128 || !MatchesPattern(eventType) {
        return Err(Invalid);
      }
      if "data" !in value {
        return Err(Invalid);
      }
      return Ok(eventType);
    }
  }

  // ----- JSON trees and their tokens

  /** A JSON text as written: members in order, names possibly repeated. */
  datatype Tree = Atomic(atom: Atom) | Arr(items: Trees) | Obj(members: Members)
  datatype Trees = NoTree | ConsTree(head: Tree, tail: Trees)
  datatype Members = NoMember | ConsMember(name: string, value: Tree, rest: Members)

  function Tokens(t: Tree): (r: seq<Token>)
    ensures More(r)
  {
    match t
    case Atomic(a) => [Scalar(a)]
    case Arr(items) => [OpenArray] + ItemTokens(items) + [CloseArray]
    case Obj(members) => [OpenObject] + MemberTokens(members) + [CloseObject]
  }

  function ItemTokens(ts: Trees): seq<Token> {
    match ts
    case NoTree => []
    case ConsTree(head, tail) => Tokens(head) + ItemTokens(tail)
  }

  function MemberTokens(ms: Members): seq<Token> {
    match ms
    case NoMember => []
    case ConsMember(name, value, rest) => [Scalar(Text(name))] + Tokens(value) + MemberTokens(rest)
  }

  function Names(ms: Members): set<string> {
    if ms.NoMember? then {} else {ms.name} + Names(ms.rest)
  }

  /** No object at any depth repeats a name. */
  predicate Unique(t: Tree) {
    match t
    case Atomic(_) => true
    case Arr(items) => UniqueItems(items)
    case Obj(members) => UniqueMembers(members)
  }

  predicate UniqueItems(ts: Trees) {
    ts.NoTree? || (Unique(ts.head) && UniqueItems(ts.tail))
  }

  predicate UniqueMembers(ms: Members) {
    ms.NoMember? || (ms.name !in Names(ms.rest) && Unique(ms.value) && UniqueMembers(ms.rest))
  }

  function ValueOf(t: Tree): Value {
    match t
    case Atomic(a) => Leaf(a)
    case Arr(items) => Array(ItemValues(items))
    case Obj(members) => Object(MemberValues(members))
  }

  function ItemValues(ts: Trees): seq<Value> {
    if ts.NoTree? then [] else [ValueOf(ts.head)] + ItemValues(ts.tail)
  }

  function MemberValues(ms: Members): (r: map<string, Value>)
    ensures r.Keys == Names(ms)
  {
    if ms.NoMember? then map[] else MemberValues(ms.rest)[ms.name := ValueOf(ms.value)]
  }

  // ----- every tree decodes to its value, or is refused for a repeated name

  /** On the tokens of a tree followed by anything: the tree's value and the suffix, unless a name is repeated. */
  lemma {:induction false} TreeDecodes(t: Tree, r: seq<Token>)
    ensures Unique(t) ==> Parse(Tokens(t) + r) == Ok((ValueOf(t), r))
    ensures !Unique(t) ==> Parse(Tokens(t) + r).Err?
  {
    match t
    case Atomic(a) =>
      assert (Tokens(t) + r)[1..] == r;
    case Arr(items) =>
      assert (Tokens(t) + r)[1..] == ItemTokens(items) + ([CloseArray] + r);
      ItemsDecode(items, r, []);
      assert [] + ItemValues(items) == ItemValues(items);
    case Obj(members) =>
      assert (Tokens(t) + r)[1..] == MemberTokens(members) + ([CloseObject] + r);
      MembersDecode(members, r, map[]);
      assert map[] + MemberValues(members) == MemberValues(members);
  }

  lemma {:induction false} ItemsDecode(ts: Trees, r: seq<Token>, acc: seq<Value>)
    ensures var p := ParseItems(ItemTokens(ts) + ([CloseArray] + r), acc);
      if UniqueItems(ts) then p == Ok((Array(acc + ItemValues(ts)), r)) else p.Err?
  {
    var all := ItemTokens(ts) + ([CloseArray] + r);
    match ts
    case NoTree =>
      assert all[1..] == r;
      assert acc + [] == acc;
    case ConsTree(head, tail) =>
      var after := ItemTokens(tail) + ([CloseArray] + r);
      assert all == Tokens(head) + after;
      TreeDecodes(head, after);
      ItemsDecode(tail, r, acc + [ValueOf(head)]);
      assert acc + [ValueOf(head)] + ItemValues(tail) == acc + ItemValues(ts);
  }

  lemma MergeStep(acc: map<string, Value>, name: string, v: Value, rest: map<string, Value>)
    requires name !in rest
    ensures acc[name := v] + rest == acc + rest[name := v]
  {
  }

  lemma {:induction false} MembersDecode(ms: Members, r: seq<Token>, acc: map<string, Value>)
    ensures var p := ParseMembers(MemberTokens(ms) + ([CloseObject] + r), acc);
      if UniqueMembers(ms) && Names(ms) !! acc.Keys then p == Ok((Object(acc + MemberValues(ms)), r)) else p.Err?
  {
    hide ValueOf, Unique, ParseItems;
    var all := MemberTokens(ms) + ([CloseObject] + r);
    match ms
    case NoMember =>
      assert all[1..] == r;
      assert acc + map[] == acc;
    case ConsMember(name, value, rest) =>
      var after := MemberTokens(rest) + ([CloseObject] + r);
      assert all[0] == Scalar(Text(name)) && all[1..] == Tokens(value) + after;
      if name !in acc {
        TreeDecodes(value, after);
        if Unique(value) {
          var acc' := acc[name := ValueOf(value)];
          MembersDecode(rest, r, acc');
          assert Names(rest) !! acc'.Keys <==> name !in Names(rest) && Names(rest) !! acc.Keys;
          if name !in Names(rest) {
            MergeStep(acc, name, ValueOf(value), MemberValues(rest));
          }
        }
      }
  }

  // ----- and nothing else decodes

  /** Whatever decodes is the token list of a tree without repeated names, and the value is the tree's. */
  lemma {:induction false} DecodedIsTree(ts: seq<Token>) returns (t: Tree)
    requires Parse(ts).Ok?
    ensures Unique(t) && ts == Tokens(t) + Parse(ts).value.1 && Parse(ts).value.0 == ValueOf(t)
    decreases |ts|, 0
  {
    match ts[0]
    case Scalar(a) =>
      t := Atomic(a);
    case OpenObject =>
      var ms := DecodedMembers(ts[1..], map[]);
      t := Obj(ms);
      assert map[] + MemberValues(ms) == MemberValues(ms);
    case OpenArray =>
      var items := DecodedItems(ts[1..], []);
      t := Arr(items);
      assert [] + ItemValues(items) == ItemValues(items);
  }

  lemma Regroup(a: seq<Token>, b: seq<Token>, c: seq<Token>, d: seq<Token>)
    ensures a + (b + (c + d)) == a + b + c + d
  {
  }

  lemma {:induction false} DecodedItems(ts: seq<Token>, acc: seq<Value>) returns (items: Trees)
    requires ParseItems(ts, acc).Ok?
    ensures var p := ParseItems(ts, acc).value;
      UniqueItems(items) && ts == ItemTokens(items) + ([CloseArray] + p.1) && p.0 == Array(acc + ItemValues(items))
    decreases |ts|, 1
  {
    if More(ts) {
      var head := DecodedIsTree(ts);
      var child := Parse(ts).value;
      var tail := DecodedItems(child.1, acc + [child.0]);
      items := ConsTree(head, tail);
      assert acc + [child.0] + ItemValues(tail) == acc + ItemValues(items);
    } else {
      items := NoTree;
      assert acc + [] == acc;
    }
  }

  lemma {:induction false} DecodedMembers(ts: seq<Token>, acc: map<string, Value>) returns (ms: Members)
    requires ParseMembers(ts, acc).Ok?
    ensures var p := ParseMembers(ts, acc).value;
      && UniqueMembers(ms) && Names(ms) !! acc.Keys && ts == MemberTokens(ms) + ([CloseObject] + p.1)
      && p.0 == Object(acc + MemberValues(ms))
    decreases |ts|, 1
  {
    hide Tokens, ValueOf, Unique, ParseItems;
    if More(ts) {
      var name := ts[0].atom.text;
      var head := DecodedIsTree(ts[1..]);
      var child := Parse(ts[1..]).value;
      var acc' := acc[name := child.0];
      var rest := DecodedMembers(child.1, acc');
      assert name in acc'.Keys && name !in Names(rest);
      ms := ConsMember(name, head, rest);
      Regroup([ts[0]], Tokens(head), MemberTokens(rest), [CloseObject] + ParseMembers(ts, acc).value.1);
      MergeStep(acc, name, child.0, MemberValues(rest));
    } else {
      ms := NoMember;
      assert acc + map[] == acc;
    }
  }

  // ----- the structure check

  predicate Alphanumeric(c: char) {
    'A' <= c <= 'Z' || 'a' <= c <= 'z' || '0' <= c <= '9'
  }

  /** An alphanumeric character, then alphanumerics, dots, underscores, colons and dashes. */
  predicate MatchesPattern(s: string) {
    |s| > 0 && Alphanumeric(s[0]) && forall i | 1 <= i < |s| :: Alphanumeric(s[i]) || s[i] in "._:-"
  }

  function Structure(ts: seq<Token>): Result<string, Error> {
    var p := Parse(ts);
    if p.Err? || p.value.1 != [] || !p.value.0.Object? then Err(Invalid)
    else
      var value := p.value.0.members;
      if !("type" in value && value["type"].Leaf? && value["type"].atom.Text?) then Err(Invalid)
      else
        var eventType := value["type"].atom.text;
        if |eventType| > 128 || !MatchesPattern(eventType) || "data" !in value then Err(Invalid)
        else Ok(eventType)
  }

  /** A member of the object, at its first level. */
  ghost predicate HasMember(ms: Members, name: string, value: Tree) {
    ms.ConsMember? && ((ms.name == name && ms.value == value) || HasMember(ms.rest, name, value))
  }

  /** The JSON texts of events: duplicate-free objects with data and an acceptable type. */
  ghost predicate EventText(t: Tree, eventType: string) {
    && t.Obj? && Unique(t)
    && HasMember(t.members, "type", Atomic(Text(eventType)))
    && "data" in Names(t.members)
    && 1 <= |eventType| <= 128
    && forall i | 0 <= i < |eventType| ::
      || 'A' <= eventType[i] <= 'Z' || 'a' <= eventType[i] <= 'z' || '0' <= eventType[i] <= '9'
      || (i > 0 && eventType[i] in {'.', '_', ':', '-'})
  }

  lemma PatternSpelled(s: string)
    ensures MatchesPattern(s) <==>
      && |s| >= 1
      && forall i | 0 <= i < |s| ::
        || 'A' <= s[i] <= 'Z' || 'a' <= s[i] <= 'z' || '0' <= s[i] <= '9' || (i > 0 && s[i] in {'.', '_', ':', '-'})
  {
    assert forall c: char :: c in "._:-" <==> c in {'.', '_', ':', '-'};
  }

  lemma {:induction false} MemberHasValue(ms: Members, name: string, a: Atom)
    requires UniqueMembers(ms)
    ensures HasMember(ms, name, Atomic(a)) <==> name in MemberValues(ms) && MemberValues(ms)[name] == Leaf(a)
  {
    if ms.ConsMember? {
      MemberHasValue(ms.rest, name, a);
      if HasMember(ms.rest, name, Atomic(a)) {
        assert name in Names(ms.rest);
      }
      assert ValueOf(ms.value) == Leaf(a) <==> ms.value == Atomic(a);
    }
  }

  /** Acceptance is exact: a token stream passes, with that type, if and only if it spells an event. */
  lemma StructureIsExact(ts: seq<Token>, eventType: string)
    ensures Structure(ts) == Ok(eventType) <==> exists t :: EventText(t, eventType) && ts == Tokens(t)
  {
    PatternSpelled(eventType);
    hide MatchesPattern;
    if Structure(ts) == Ok(eventType) {
      var t := DecodedIsTree(ts);
      assert t.Obj? && ts == Tokens(t);
      MemberHasValue(t.members, "type", Text(eventType));
      assert EventText(t, eventType);
    }
    if t :| EventText(t, eventType) && ts == Tokens(t) {
      TreeDecodes(t, []);
      assert Tokens(t) + [] == ts;
      MemberHasValue(t.members, "type", Text(eventType));
    }
  }

  // ----- what it is to repeat no name

  /** A part of a tree, at any depth, the tree itself included. */
  ghost predicate Inside(part: Tree, t: Tree) {
    part == t || (t.Arr? && InsideItems(part, t.items)) || (t.Obj? && InsideMembers(part, t.members))
  }

  ghost predicate InsideItems(part: Tree, ts: Trees) {
    ts.ConsTree? && (Inside(part, ts.head) || InsideItems(part, ts.tail))
  }

  ghost predicate InsideMembers(part: Tree, ms: Members) {
    ms.ConsMember? && (Inside(part, ms.value) || InsideMembers(part, ms.rest))
  }

  ghost function NameList(ms: Members): seq<string> {
    if ms.NoMember? then [] else [ms.name] + NameList(ms.rest)
  }

  /** The members of this tree, if it is an object, have different names. */
  ghost predicate OwnNamesDiffer(t: Tree) {
    t.Obj? ==>
      forall i, j :: 0 <= i < j < |NameList(t.members)| ==> NameList(t.members)[i] != NameList(t.members)[j]
  }

  ghost predicate DistinctNames(ms: Members) {
    ms.NoMember? || (ms.name !in Names(ms.rest) && DistinctNames(ms.rest))
  }

  lemma {:induction false} NamesListed(ms: Members, name: string)
    ensures name in Names(ms) <==> name in NameList(ms)
  {
    if ms.ConsMember? { NamesListed(ms.rest, name); }
  }

  lemma {:induction false} DistinctListed(ms: Members)
    ensures DistinctNames(ms) <==> OwnNamesDiffer(Obj(ms))
  {
    if ms.ConsMember? {
      var names, rest := NameList(ms), NameList(ms.rest);
      NamesListed(ms.rest, ms.name);
      DistinctListed(ms.rest);
      assert forall i :: 0 <= i < |rest| ==> rest[i] == names[i + 1];
      if OwnNamesDiffer(Obj(ms)) {
        forall i, j | 0 <= i < j < |rest|
          ensures rest[i] != rest[j]
        {
          assert names[i + 1] != names[j + 1];
        }
        forall i | 0 <= i < |rest|
          ensures rest[i] != ms.name
        {
          assert names[0] != names[i + 1];
        }
      }
    }
  }

  /** A tree repeats no name exactly when, in every object at any depth, the members' names differ. */
  lemma {:induction false} UniqueExact(t: Tree)
    ensures Unique(t) <==> forall part :: Inside(part, t) ==> OwnNamesDiffer(part)
  {
    hide OwnNamesDiffer;
    match t
    case Atomic(_) => AtomIsFine(t);
    case Arr(items) =>
      ItemsExact(items);
      ArrayIsFine(t);
    case Obj(members) =>
      MembersExact(members);
      DistinctListed(members);
  }

  lemma AtomIsFine(t: Tree)
    requires t.Atomic?
    ensures forall part :: Inside(part, t) ==> OwnNamesDiffer(part)
  {
  }

  lemma ArrayIsFine(t: Tree)
    requires !t.Obj?
    ensures OwnNamesDiffer(t)
  {
  }

  lemma {:induction false} ItemsExact(ts: Trees)
    ensures UniqueItems(ts) <==> forall part :: InsideItems(part, ts) ==> OwnNamesDiffer(part)
  {
    hide OwnNamesDiffer, Inside;
    if ts.ConsTree? {
      UniqueExact(ts.head);
      ItemsExact(ts.tail);
    }
  }

  lemma {:induction false} MembersExact(ms: Members)
    ensures UniqueMembers(ms) <==>
      DistinctNames(ms) && forall part :: InsideMembers(part, ms) ==> OwnNamesDiffer(part)
  {
    hide OwnNamesDiffer, Inside, Names;
    if ms.ConsMember? {
      UniqueExact(ms.value);
      MembersExact(ms.rest);
    }
  }
}
