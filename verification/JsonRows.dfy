/** The loops of the command-line client over the objects of an array (commands.c): they
    look for an opening brace and a key, read fields by searching on from there, and
    never look for the array's end. */
module JsonRows {
  import opened Sequences
  import opened Text
  import opened JsonTree
  import opened JsonKeys
  import opened JsonSearch
  import opened JsonClient

  /** What a loop over objects looks for: the key an object begins with, the integers
      it reads and the string it shows. */
  datatype Columns = Columns(opening: string, ints: seq<string>, text: string)

  datatype Row = Row(ints: seq<int>, text: string)

  const GROWERS := Columns("pid", ["pid", "rss_kb", "rss_delta_kb"], "cmd")

  predicate GoodColumns(c: Columns) {
    && IdentifierBytes(c.opening) && IdentifierBytes(c.text)
    && forall i :: 0 <= i < |c.ints| ==> IdentifierBytes(c.ints[i]) && |c.ints[i]| <= SEARCH_MAX - 3
  }

  /** One round of such a loop, with the cursor on an object's brace. */
  function RowAt(pos: string, c: Columns): Row {
    Row(seq(|c.ints|, i requires 0 <= i < |c.ints| => GetInt(pos, c.ints[i])),
        match GetString(pos, c.text) case Some(v) => v case None => "unknown")
  }

  /** All rounds from a cursor on. */
  function Rows(pos: string, c: Columns): seq<Row>
    decreases |pos|
  {
    match StrStr(pos, PatternOf(Opening(c.opening)))
    case None => []
    case Some(i) => [RowAt(pos[i..], c)] + Rows(pos[i + 1..], c)
  }

  lemma GrowerRow(pos: string)
    ensures PatternOf(Opening(GROWERS.opening)) == "{\"pid\":"
    ensures RowAt(pos, GROWERS) == Row([GetInt(pos, "pid"), GetInt(pos, "rss_kb"), GetInt(pos, "rss_delta_kb")],
                                       match GetString(pos, "cmd") case Some(v) => v case None => "unknown")
  {
    hide GetInt;
    hide GetString;
  }

  lemma RowsUnfold(pos: string, c: Columns)
    ensures Rows(pos, c) == match StrStr(pos, PatternOf(Opening(c.opening)))
                            case None => []
                            case Some(i) => [RowAt(pos[i..], c)] + Rows(pos[i + 1..], c)
  {
    hide StrStr;
    hide PatternOf;
    hide RowAt;
  }

  lemma SliceTwice(s: string, i: nat)
    requires i < |s|
    ensures s[i..][1..] == s[i + 1..]
  {
  }

  /** The loop over the top growers, from their key on. */
  method ListGrowers(growers: string) returns (rows: seq<Row>)
    ensures rows == match StrChr(growers, '[')
                    case None => []
                    case Some(k) => Rows(growers[k..], GROWERS)
  {
    hide GetInt;
    hide GetString;
    hide StrStr;
    hide StrChr;
    hide Rows;
    hide RowAt;
    hide PatternOf;
    rows := [];
    var bracket := StrChr(growers, '[');
    if bracket.None? { return; }
    var pos := growers[bracket.value..];
    ghost var all := Rows(pos, GROWERS);
    while true
      invariant all == rows + Rows(pos, GROWERS)
      decreases |pos|
    {
      GrowerRow(pos);
      RowsUnfold(pos, GROWERS);
      var found := StrStr(pos, "{\"pid\":");
      if found.None? { break; }
      SliceTwice(pos, found.value);
      pos := pos[found.value..];
      GrowerRow(pos);
      var pid := JsonGetInt(pos, "pid");
      var rss := JsonGetInt(pos, "rss_kb");
      var delta := JsonGetInt(pos, "rss_delta_kb");
      var cmd := GetString(pos, "cmd");
      rows := rows + [Row([pid, rss, delta], if cmd.Some? then cmd.value else "unknown")];
      pos := pos[1..];
    }
  }

  /** The row a structural reader takes from an object: every field is the first of its
      name inside the object, in text order. */
  function OwnRow(members: seq<Member>, c: Columns): Row {
    Row(seq(|c.ints|, i requires 0 <= i < |c.ints| => IntegerOf(LookupMembers(members, c.ints[i]))),
        match LookupMembers(members, c.text) case Some(Str(v)) => Shown(v) case _ => "unknown")
  }

  /** The columns of the growers' table: pid, size, size delta and command. */
  lemma GrowerColumns(pid: int, cmd: string, rss: int, delta: int, more: seq<Member>)
    ensures OwnRow([Member("pid", Int(pid)), Member("cmd", Str(cmd)), Member("rss_kb", Int(rss)),
                    Member("rss_delta_kb", Int(delta))] + more, GROWERS)
         == Row([IntegerOf(Some(Int(pid))), IntegerOf(Some(Int(rss))), IntegerOf(Some(Int(delta)))], Shown(cmd))
  {
    hide IntegerOf;
    hide Shown;
    var a, b, c, d := Member("pid", Int(pid)), Member("cmd", Str(cmd)), Member("rss_kb", Int(rss)),
                      Member("rss_delta_kb", Int(delta));
    LookupPast(a, [b, c, d] + more);
    LookupPast(b, [c, d] + more);
    LookupPast(c, [d] + more);
    LookupPast(d, more);
    assert [a, b, c, d] + more == [a] + ([b, c, d] + more);
    assert [b, c, d] + more == [b] + ([c, d] + more);
    assert [c, d] + more == [c] + ([d] + more);
  }

  lemma LookupPast(m: Member, more: seq<Member>)
    requires !m.value.Obj? && !m.value.Arr?
    ensures LookupMembers([m] + more, m.key) == Some(m.value)
    ensures forall k :: k != m.key ==> LookupMembers([m] + more, k) == LookupMembers(more, k)
  {
    HeadTail(m, more);
    forall k | k != m.key
      ensures LookupMembers([m] + more, k) == LookupMembers(more, k)
    {
      assert ([m] + more)[0] == m && Lookup(m.value, k).None?;
    }
  }

  /** The object has all the fields the loop reads. */
  predicate Complete(members: seq<Member>, c: Columns) {
    && (forall i :: 0 <= i < |c.ints| ==> LookupMembers(members, c.ints[i]).Some?)
    && LookupMembers(members, c.text).Some? && LookupMembers(members, c.text).value.Str?
  }

  function ObjectAt(p: Place): seq<Member> {
    [p.member] + p.later
  }

  /** From an object's brace the search for one of its fields stays inside it. */
  lemma SearchInObject(s: string, p: Place, w: Want) returns (q: Place)
    requires Stands(s, p) && p.first && IdentifierBytes(w.key) && !w.Opening?
    requires LookupMembers(ObjectAt(p), w.key).Some?
    requires w.TextOf? ==> LookupMembers(ObjectAt(p), w.key).value.Str?
    ensures q.at >= p.at - 1 && q.member.key == w.key
    ensures Some(q.member.value) == LookupMembers(ObjectAt(p), w.key)
    ensures Stands(s, q) && StrStr(s[p.at - 1..], PatternOf(w)) == Some(q.at - (p.at - 1))
  {
    hide StrStr;
    hide Lists;
    hide PatternOf;
    hide MembersPlaces;
    hide LookupMembers;
    hide MembersText;
    hide Wanted;
    var members := ObjectAt(p);
    var tail :| HeldBefore(s, p, tail);
    var more := MembersText(members) + ("}" + tail);
    assert forall i :: 0 <= i < |members| ==> IdentifierMember(members[i]);
    ListsMembers(s, p.at, members, p.first, tail, w.key);
    assert s[p.at - 1..] == "{" + more;
    ListsUnquoted(s, p.at - 1, "{", more, w.key);
    var ps := MembersPlaces(members, p.at, p.first);
    var to := p.at + |MembersText(members)|;
    ListsConcat(s, p.at - 1, p.at, to, w.key, [], ps);
    assert [] + ps == ps;
    NextInMembers(members, w.key, p.at, p.first, p.at - 1);
    NextOfKind(ps, w, p.at - 1);
    FoundWithin(s, p.at - 1, to, ps, w, p.at - 1);
    q := Next(ps, w, p.at - 1).value;
  }

  /** Where the next member of a name holds a string, it is also the next string. */
  lemma {:induction false} NextOfKind(ps: seq<Place>, w: Want, from: nat)
    requires !w.Opening? && Next(ps, KeyOf(w.key), from).Some?
    requires w.TextOf? ==> Next(ps, KeyOf(w.key), from).value.member.value.Str?
    ensures Next(ps, w, from) == Next(ps, KeyOf(w.key), from)
    ensures Next(ps, w, from).value.member.key == w.key
  {
    if !(ps[0].at >= from && ps[0].member.key == w.key) {
      NextOfKind(ps[1..], w, from);
    }
  }

  /** A loop round on a complete object shows that object's own fields. */
  lemma RowIsOwn(s: string, p: Place, c: Columns)
    requires Stands(s, p) && p.first && GoodColumns(c) && Complete(ObjectAt(p), c)
    ensures RowAt(s[p.at - 1..], c) == OwnRow(ObjectAt(p), c)
  {
    hide StrStr;
    hide PatternOf;
    hide LookupMembers;
    hide GetInt;
    hide GetString;
    hide Shown;
    hide IntegerOf;
    forall i | 0 <= i < |c.ints|
      ensures GetInt(s[p.at - 1..], c.ints[i]) == IntegerOf(LookupMembers(ObjectAt(p), c.ints[i]))
    {
      var q := SearchInObject(s, p, KeyOf(c.ints[i]));
      IntegerAt(s, q, p.at - 1);
    }
    var q := SearchInObject(s, p, TextOf(c.text));
    TextAt(s, q, p.at - 1);
  }

  lemma ColumnsOpen(c: Columns)
    requires GoodColumns(c)
    ensures IdentifierBytes(c.opening)
  {
  }

  lemma RowsStep(s: string, from: nat, at: nat, c: Columns)
    requires from <= at < |s| && StrStr(s[from..], PatternOf(Opening(c.opening))) == Some(at - from)
    ensures Rows(s[from..], c) == [RowAt(s[at..], c)] + Rows(s[at + 1..], c)
  {
    hide StrStr;
    hide PatternOf;
    hide RowAt;
    assert s[from..][at - from..] == s[at..];
    assert s[from..][at - from + 1..] == s[at + 1..];
  }

  // ----- What the rows are, on any reply -----

  /** The members behind byte `from` that open an object with the key. */
  function Openings(ps: seq<Place>, key: string, from: nat): seq<Place> {
    if ps == [] then []
    else (if ps[0].at > from && Wanted(Opening(key), ps[0]) then [ps[0]] else []) + Openings(ps[1..], key, from)
  }

  /** The byte of the brace before an object's first member. */
  function BraceOf(p: Place): nat {
    if p.at == 0 then 0 else p.at - 1
  }

  /** The row read from an object: each column is the next one of its name in the whole
      reply, wherever it stands. */
  function ReadRow(ps: seq<Place>, p: Place, c: Columns): Row {
    Row(seq(|c.ints|, i requires 0 <= i < |c.ints| =>
          IntegerOf(ValueOf(Next(ps, KeyOf(c.ints[i]), BraceOf(p))))),
        match Next(ps, TextOf(c.text), BraceOf(p))
        case None => "unknown"
        case Some(q) => if q.member.value.Str? then Shown(q.member.value.s) else "unknown")
  }

  function ReadRows(ps: seq<Place>, objects: seq<Place>, c: Columns): seq<Row> {
    if objects == [] then [] else [ReadRow(ps, objects[0], c)] + ReadRows(ps, objects[1..], c)
  }

  function OwnRows(objects: seq<Place>, c: Columns): seq<Row> {
    if objects == [] then [] else [OwnRow(ObjectAt(objects[0]), c)] + OwnRows(objects[1..], c)
  }

  lemma {:induction false} OpeningsNext(ps: seq<Place>, key: string, from: nat)
    requires Ascending(ps)
    ensures Openings(ps, key, from)
         == match Next(ps, Opening(key), from + 1)
            case None => []
            case Some(p) => [p] + Openings(ps, key, p.at)
  {
    hide Wanted;
    if ps != [] {
      var w := Opening(key);
      if ps[0].at > from && Wanted(w, ps[0]) {
        OpeningsBehind(ps[1..], key, from, ps[0].at);
      } else {
        OpeningsNext(ps[1..], key, from);
        var k := NextIs(ps[1..], w, from + 1);
        assert forall l :: 0 <= l < |ps[1..]| ==> ps[0].at < ps[1..][l].at;
      }
    }
  }

  lemma {:induction false} OpeningsBehind(ps: seq<Place>, key: string, a: nat, b: nat)
    requires forall k :: 0 <= k < |ps| ==> ps[k].at > a && ps[k].at > b
    ensures Openings(ps, key, a) == Openings(ps, key, b)
  {
    if ps != [] {
      OpeningsBehind(ps[1..], key, a, b);
    }
  }

  lemma {:induction false} OpeningsBefore(ps: seq<Place>, key: string, from: nat)
    requires forall k :: 0 <= k < |ps| ==> ps[k].at <= from
    ensures Openings(ps, key, from) == []
  {
    if ps != [] {
      OpeningsBefore(ps[1..], key, from);
    }
  }

  lemma {:induction false} OpeningsConcat(a: seq<Place>, b: seq<Place>, key: string, from: nat)
    ensures Openings(a + b, key, from) == Openings(a, key, from) + Openings(b, key, from)
  {
    if a == [] {
      assert a + b == b;
    } else {
      assert (a + b)[1..] == a[1..] + b;
      OpeningsConcat(a[1..], b, key, from);
    }
  }

  lemma {:induction false} OpeningsAre(ps: seq<Place>, key: string, from: nat)
    ensures forall p :: p in Openings(ps, key, from) <==> p in ps && p.at > from && Wanted(Opening(key), p)
  {
    if ps != [] {
      OpeningsAre(ps[1..], key, from);
      Split(ps);
    }
  }

  lemma {:induction false} ReadRowsConcat(ps: seq<Place>, a: seq<Place>, b: seq<Place>, c: Columns)
    ensures ReadRows(ps, a + b, c) == ReadRows(ps, a, c) + ReadRows(ps, b, c)
    ensures |ReadRows(ps, a, c)| == |a|
  {
    hide ReadRow;
    if a == [] {
      assert a + b == b;
    } else {
      assert (a + b)[1..] == a[1..] + b;
      ReadRowsConcat(ps, a[1..], b, c);
    }
  }

  lemma RowAtIsRead(t: Json, p: Place, c: Columns)
    requires IdentifierKeys(t) && GoodColumns(c) && 0 < p.at <= |JsonText(t)|
    ensures RowAt(JsonText(t)[p.at - 1..], c) == ReadRow(Places(t, 0), p, c)
  {
    hide JsonText;
    hide Places;
    hide GetInt;
    hide GetString;
    hide Next;
    hide Shown;
    hide IntegerOf;
    forall i | 0 <= i < |c.ints|
      ensures GetInt(JsonText(t)[p.at - 1..], c.ints[i])
           == IntegerOf(ValueOf(Next(Places(t, 0), KeyOf(c.ints[i]), BraceOf(p))))
    {
      GetIntIsNext(t, c.ints[i], p.at - 1);
    }
    GetStringIsNext(t, c.text, p.at - 1);
  }

  /** On any reply and from any byte: the loop makes one row for each object behind it
      that begins with the opening key, in text order, and fills each column with the
      next one of that name in the reply - the object's own only if it has one. */
  lemma {:induction false} RowsAreRead(t: Json, c: Columns, from: nat)
    requires IdentifierKeys(t) && GoodColumns(c) && from <= |JsonText(t)|
    ensures Rows(JsonText(t)[from..], c) == ReadRows(Places(t, 0), Openings(Places(t, 0), c.opening, from), c)
    decreases |JsonText(t)| - from
  {
    hide StrStr;
    hide PatternOf;
    hide Places;
    hide JsonText;
    hide Stands;
    hide RowAt;
    hide ReadRow;
    hide Openings;
    hide GoodColumns;
    hide Lists;
    ColumnsOpen(c);
    var s, ps, w := JsonText(t), Places(t, 0), Opening(c.opening);
    SearchFindsNext(t, w, from);
    DocumentLists(t, c.opening);
    ListsWithin(s, 0, |s|, c.opening, ps);
    OpeningsNext(ps, c.opening, from);
    var next := Next(ps, w, from + 1);
    if next.Some? {
      var p := next.value;
      PlaceIsIdentifier(s, p);
      RowAtIsRead(t, p, c);
      RowsStep(s, from, p.at - 1, c);
      RowsAreRead(t, c, p.at);
      OneMore(ps, p, Openings(ps, c.opening, p.at), c);
    }
  }

  lemma OneMore(ps: seq<Place>, p: Place, objects: seq<Place>, c: Columns)
    ensures ReadRows(ps, [p] + objects, c) == [ReadRow(ps, p, c)] + ReadRows(ps, objects, c)
  {
    hide ReadRow;
    assert ([p] + objects)[1..] == objects;
  }

  lemma ReadRowIsOwn(t: Json, p: Place, c: Columns)
    requires IdentifierKeys(t) && GoodColumns(c) && p in Places(t, 0) && p.first && Complete(ObjectAt(p), c)
    ensures ReadRow(Places(t, 0), p, c) == OwnRow(ObjectAt(p), c)
  {
    hide JsonText;
    hide Places;
    hide RowAt;
    hide ReadRow;
    hide OwnRow;
    hide Complete;
    hide Lists;
    hide Stands;
    DocumentLists(t, c.opening) by { ColumnsOpen(c); }
    MemberStands(JsonText(t), c.opening, Places(t, 0), p);
    PlaceIsIdentifier(JsonText(t), p);
    RowAtIsRead(t, p, c);
    RowIsOwn(JsonText(t), p, c);
  }

  lemma MemberStands(s: string, key: string, ps: seq<Place>, p: Place)
    requires Lists(s, 0, |s|, key, ps) && p in ps
    ensures Stands(s, p)
  {
  }

  lemma {:induction false} ReadRowsAreOwn(t: Json, objects: seq<Place>, c: Columns)
    requires IdentifierKeys(t) && GoodColumns(c)
    requires forall p :: p in objects ==> p in Places(t, 0) && p.first && Complete(ObjectAt(p), c)
    ensures ReadRows(Places(t, 0), objects, c) == OwnRows(objects, c)
  {
    hide Places;
    hide ReadRow;
    hide OwnRow;
    hide Complete;
    if objects != [] {
      ReadRowIsOwn(t, objects[0], c);
      ReadRowsAreOwn(t, objects[1..], c);
    }
  }

  /** Where every object that the loop meets has all the columns, the rows show exactly
      those objects, each once and with its own fields. */
  lemma RowsAreObjects(t: Json, c: Columns, from: nat)
    requires IdentifierKeys(t) && GoodColumns(c) && from <= |JsonText(t)|
    requires forall p :: p in Openings(Places(t, 0), c.opening, from) ==> Complete(ObjectAt(p), c)
    ensures Rows(JsonText(t)[from..], c) == OwnRows(Openings(Places(t, 0), c.opening, from), c)
  {
    hide Places;
    hide Complete;
    RowsAreRead(t, c, from);
    OpeningsAre(Places(t, 0), c.opening, from);
    ReadRowsAreOwn(t, Openings(Places(t, 0), c.opening, from), c);
  }

  // ----- Where the loop over an array ends -----

  /** The members inside a member's value. */
  function Inside(p: Place): seq<Place> {
    Places(p.member.value, p.at + |QuotedKey(p.member.key)|)
  }

  /** Behind each member come the members of its value. */
  predicate Nested(ps: seq<Place>) {
    forall k :: 0 <= k < |ps| ==> Inside(ps[k]) <= ps[k + 1..]
  }

  lemma NestedConcat(a: seq<Place>, b: seq<Place>)
    requires Nested(a) && Nested(b)
    ensures Nested(a + b)
  {
    hide Inside;
    var all := a + b;
    forall k | 0 <= k < |all|
      ensures Inside(all[k]) <= all[k + 1..]
    {
      if k < |a| {
        assert all[k + 1..] == a[k + 1..] + b;
      } else {
        assert all[k + 1..] == b[k - |a| + 1..];
      }
    }
  }

  lemma BehindHead(p: Place, inner: seq<Place>, k: nat)
    requires k <= |inner|
    ensures ([p] + inner)[k + 1..] == inner[k..]
    ensures ([p] + inner)[k] == if k == 0 then p else inner[k - 1]
  {
  }

  lemma NestedMember(p: Place)
    requires Nested(Inside(p))
    ensures Nested([p] + Inside(p))
  {
    hide Inside;
    var inner := Inside(p);
    forall k | 0 <= k < |[p] + inner|
      ensures Inside(([p] + inner)[k]) <= ([p] + inner)[k + 1..]
    {
      BehindHead(p, inner, k);
    }
  }

  lemma {:induction false} PlacesNested(t: Json, at: nat)
    ensures Nested(Places(t, at))
    decreases t, 0
  {
    match t {
      case Arr(items) => ItemsNested(items, at + 1);
      case Obj(members) => MembersNested(members, at + 1, true);
      case _ =>
    }
  }

  lemma {:induction false} ItemsNested(items: seq<Json>, at: nat)
    ensures Nested(ItemsPlaces(items, at))
    decreases items, 0
  {
    hide Nested;
    if items == [] {
      assert Nested([]) by { NothingNested(); }
    } else {
      var later := at + |JsonText(items[0])| + 1;
      PlacesNested(items[0], at);
      ItemsNested(items[1..], later);
      NestedConcat(Places(items[0], at), ItemsPlaces(items[1..], later));
    }
  }

  lemma NothingNested()
    ensures Nested([])
  {
  }

  lemma {:induction false} MembersNested(members: seq<Member>, at: nat, first: bool)
    ensures Nested(MembersPlaces(members, at, first))
    decreases members, 0
  {
    hide Nested;
    if members == [] {
      assert Nested([]) by { NothingNested(); }
    } else {
      var m := members[0];
      var p := Place(at, m, members[1..], first);
      var later := at + |MemberText(m)| + 1;
      InsideNested(p);
      MembersNested(members[1..], later, false);
      assert MemberPlaces(m, members[1..], at, first) == [p] + Inside(p);
      NestedConcat([p] + Inside(p), MembersPlaces(members[1..], later, false));
    }
  }

  lemma {:induction false} InsideNested(p: Place)
    ensures Nested([p] + Inside(p))
    decreases p.member, 0
  {
    PlacesNested(p.member.value, p.at + |QuotedKey(p.member.key)|);
    NestedMember(p);
  }

  lemma SplitAround(ps: seq<Place>, k: nat, inner: seq<Place>)
    requires k < |ps| && inner <= ps[k + 1..]
    ensures k + 1 + |inner| <= |ps| && ps == ps[..k + 1] + inner + ps[k + 1 + |inner|..]
  {
    var later := ps[k + 1..];
    assert later == inner + later[|inner|..];
    assert later[|inner|..] == ps[k + 1 + |inner|..];
    assert ps == ps[..k + 1] + later;
    Assoc(ps[..k + 1], inner, later[|inner|..]);
  }

  lemma BeforeAndAt(ps: seq<Place>, k: nat)
    requires Ascending(ps) && k < |ps|
    ensures forall q :: q in ps[..k + 1] ==> q.at <= ps[k].at
  {
  }

  /** The members of a value stand behind its first byte. */
  lemma {:induction false} PlacesBeyond(t: Json, at: nat)
    ensures forall q :: q in Places(t, at) ==> q.at > at
    decreases t, 0
  {
    match t {
      case Arr(items) => ItemsBeyond(items, at + 1);
      case Obj(members) => MembersBeyond(members, at + 1, true);
      case _ =>
    }
  }

  lemma {:induction false} ItemsBeyond(items: seq<Json>, at: nat)
    ensures forall q :: q in ItemsPlaces(items, at) ==> q.at > at
    decreases items, 0
  {
    if items != [] {
      PlacesBeyond(items[0], at);
      ItemsBeyond(items[1..], at + |JsonText(items[0])| + 1);
    }
  }

  lemma {:induction false} MembersBeyond(members: seq<Member>, at: nat, first: bool)
    ensures forall q :: q in MembersPlaces(members, at, first) ==> q.at >= at
    decreases members, 0
  {
    if members != [] {
      PlacesBeyond(members[0].value, at + |QuotedKey(members[0].key)|);
      MembersBeyond(members[1..], at + |MemberText(members[0])| + 1, false);
    }
  }

  lemma InsideWithin(s: string, p: Place)
    requires Stands(s, p)
    ensures forall q :: q in Inside(p) ==> p.at + |QuotedKey(p.member.key)| < q.at < p.at + |MemberText(p.member)|
  {
    hide Stands;
    hide JsonText;
    hide QuotedKey;
    hide Places;
    hide Lists;
    var key, v := QuotedKey(p.member.key), p.member.value;
    var tail := StandingText(s, p);
    PlaceIsIdentifier(s, p);
    Slide(s, p.at, key, JsonText(v) + tail);
    ListsValue(s, p.at + |key|, v, tail, "");
    ListsWithin(s, p.at + |key|, p.at + |key| + |JsonText(v)|, "", Inside(p));
    PlacesBeyond(v, p.at + |key|);
  }

  lemma SectionBefore(ps: seq<Place>, k: nat, l: nat)
    requires Ascending(ps) && k < l < |ps| && Inside(ps[k]) <= ps[k + 1..] && l > k + |Inside(ps[k])|
    ensures forall j :: 0 <= j < |[ps[k]] + Inside(ps[k])| ==> ([ps[k]] + Inside(ps[k]))[j].at < ps[l].at
  {
    hide Inside;
    var inner := Inside(ps[k]);
    forall j | 0 <= j < |[ps[k]] + inner|
      ensures ([ps[k]] + inner)[j].at < ps[l].at
    {
      assert j > 0 ==> inner[j - 1] == ps[k + 1..][j - 1] == ps[k + j];
    }
  }

  /** A later member that does not belong to a member's value stands behind it. */
  lemma BehindMember(t: Json, k: nat, l: nat)
    requires IdentifierKeys(t) && k < l < |Places(t, 0)| && l > k + |Inside(Places(t, 0)[k])|
    ensures var p := Places(t, 0)[k]; Places(t, 0)[l].at >= p.at + |MemberText(p.member)|
  {
    hide JsonText;
    hide Places;
    hide Lists;
    hide Stands;
    hide MemberText;
    hide QuotedKey;
    hide MatchesAt;
    var s, ps := JsonText(t), Places(t, 0);
    var p, q := ps[k], ps[l];
    var w := KeyOf(q.member.key);
    DocumentLists(t, "");
    ListsWithin(s, 0, |s|, "", ps);
    MemberStands(s, "", ps, p);
    MemberStands(s, "", ps, q);
    PlaceIsIdentifier(s, q);
    PlaceMatches(s, q, w);
    ListsSection(s, p, q.member.key);
    PlacesNested(t, 0);
    SectionBefore(ps, k, l);
    if q.at < p.at + |MemberText(p.member)| {
      MatchIffWanted(s, p.at, p.at + |MemberText(p.member)|, [p] + Inside(p), w, q.at);
    }
  }

  lemma LaterAreBehind(t: Json, k: nat)
    requires IdentifierKeys(t) && k < |Places(t, 0)|
    requires k + 1 + |Inside(Places(t, 0)[k])| <= |Places(t, 0)|
    ensures var ps := Places(t, 0);
            forall q :: q in ps[k + 1 + |Inside(ps[k])|..] ==> q.at >= ps[k].at + |MemberText(ps[k].member)|
  {
    hide Places;
    hide MemberText;
    hide Inside;
    var ps := Places(t, 0);
    var later := ps[k + 1 + |Inside(ps[k])|..];
    forall q | q in later
      ensures q.at >= ps[k].at + |MemberText(ps[k].member)|
    {
      var j :| 0 <= j < |later| && later[j] == q;
      BehindMember(t, k, k + 1 + |Inside(ps[k])| + j);
    }
  }

  /** A member in a document: the members before it, those inside its value, and those
      behind its value's last byte. */
  lemma InsideAndBehind(t: Json, k: nat)
    requires IdentifierKeys(t) && k < |Places(t, 0)|
    ensures var ps := Places(t, 0);
            var p := ps[k];
            var n, end := |Inside(p)|, p.at + |MemberText(p.member)|;
            && k + 1 + n <= |ps| && ps == ps[..k + 1] + Inside(p) + ps[k + 1 + n..]
            && Stands(JsonText(t), p)
            && (forall q :: q in ps[..k + 1] ==> q.at <= p.at)
            && (forall q :: q in Inside(p) ==> p.at + |QuotedKey(p.member.key)| < q.at < end)
            && (forall q :: q in ps[k + 1 + n..] ==> q.at >= end)
  {
    hide JsonText;
    hide Places;
    hide Lists;
    hide Stands;
    hide MemberText;
    hide QuotedKey;
    hide Inside;
    var s, ps := JsonText(t), Places(t, 0);
    DocumentLists(t, "");
    ListsWithin(s, 0, |s|, "", ps);
    MemberStands(s, "", ps, ps[k]);
    PlacesNested(t, 0);
    SplitAround(ps, k, Inside(ps[k]));
    BeforeAndAt(ps, k);
    InsideWithin(s, ps[k]);
    LaterAreBehind(t, k);
  }

  /** The loop over the array under a key: it starts at the array's bracket, makes the
      rows of the array's own objects, and then goes on to the objects behind the array. */
  lemma ArrayLoop(t: Json, k: nat, c: Columns)
    requires IdentifierKeys(t) && GoodColumns(c) && k < |Places(t, 0)| && Places(t, 0)[k].member.value.Arr?
    ensures var s, ps := JsonText(t), Places(t, 0);
            var p := ps[k];
            var start, end := p.at + |QuotedKey(p.member.key)|, p.at + |MemberText(p.member)|;
            && start < end <= |s| && StrChr(s[p.at..], '[') == Some(start - p.at)
            && Rows(s[start..], c)
               == ReadRows(ps, Openings(Inside(p), c.opening, start), c)
                  + ReadRows(ps, Openings(ps, c.opening, end - 1), c)
  {
    hide JsonText;
    hide Places;
    hide Stands;
    hide ReadRow;
    hide Rows;
    hide StrChr;
    hide QuotedKey;
    hide Openings;
    var s, ps := JsonText(t), Places(t, 0);
    var p := ps[k];
    var start, end, n := p.at + |QuotedKey(p.member.key)|, p.at + |MemberText(p.member)|, |Inside(p)|;
    InsideAndBehind(t, k);
    ArrayBracket(s, p);
    RowsAreRead(t, c, start);
    var before, behind := ps[..k + 1], ps[k + 1 + n..];
    OpeningsThrough(before, Inside(p), behind, c.opening, start, end - 1);
    ReadRowsConcat(ps, Openings(Inside(p), c.opening, start), Openings(ps, c.opening, end - 1), c);
  }

  lemma OpeningsThrough(before: seq<Place>, inner: seq<Place>, behind: seq<Place>, key: string, start: nat, last: nat)
    requires start <= last && forall q :: q in before ==> q.at <= start
    requires forall q :: q in inner ==> start < q.at <= last
    requires forall q :: q in behind ==> q.at > last
    ensures Openings(before + inner + behind, key, start)
         == Openings(inner, key, start) + Openings(before + inner + behind, key, last)
  {
    hide Openings;
    OpeningsConcat(before + inner, behind, key, start);
    OpeningsConcat(before, inner, key, start);
    OpeningsConcat(before + inner, behind, key, last);
    OpeningsBefore(before, key, start);
    OpeningsBefore(before + inner, key, last);
    OpeningsBehind(behind, key, start, last);
    assert [] + Openings(inner, key, start) == Openings(inner, key, start);
    assert [] + Openings(behind, key, last) == Openings(behind, key, last);
  }

  lemma ArrayBracket(s: string, p: Place)
    requires Stands(s, p) && p.member.value.Arr?
    ensures var start := p.at + |QuotedKey(p.member.key)|;
            start < p.at + |MemberText(p.member)| <= |s| && StrChr(s[p.at..], '[') == Some(start - p.at)
  {
    hide Stands;
    hide StrChr;
    var key, v := p.member.key, p.member.value;
    var tail := StandingText(s, p);
    var q := QuotedKey(key);
    IdentifierUnescaped(key);
    PlaceIsIdentifier(s, p);
    Assoc(q, JsonText(v), tail);
    Slide(s, p.at, MemberText(p.member), tail);
    assert JsonText(v)[0] == '[';
    assert s[p.at..][|q|] == '[' && '[' !in q;
    assert s[p.at..][..|q|] == q;
    StrChrIs(s[p.at..], '[', |q|);
  }

  lemma NoOpenings(ps: seq<Place>, key: string, from: nat)
    ensures Openings(ps, key, from) == [] <==> forall q :: q in ps && q.at > from ==> !Wanted(Opening(key), q)
  {
    hide Openings;
    hide Wanted;
    OpeningsAre(ps, key, from);
    var found := Openings(ps, key, from);
    if found != [] {
      assert found[0] in found;
    }
  }

  lemma NoMoreRows(rows: seq<Row>, ps: seq<Place>, more: seq<Place>, c: Columns)
    ensures rows + ReadRows(ps, more, c) == rows <==> more == []
  {
    hide ReadRow;
    ReadRowsConcat(ps, more, [], c);
    assert |rows + ReadRows(ps, more, c)| == |rows| + |more|;
    if more == [] {
      assert rows + [] == rows;
    }
  }

  /** The loop over an array shows the array's own objects and nothing else if and only
      if no object that begins with the opening key stands behind the array. */
  lemma ArrayLoopStopsIff(t: Json, k: nat, c: Columns)
    requires IdentifierKeys(t) && GoodColumns(c) && k < |Places(t, 0)| && Places(t, 0)[k].member.value.Arr?
    ensures var s, ps := JsonText(t), Places(t, 0);
            var p := ps[k];
            var start, end := p.at + |QuotedKey(p.member.key)|, p.at + |MemberText(p.member)|;
            && start <= |s|
            && (Rows(s[start..], c) == ReadRows(ps, Openings(Inside(p), c.opening, start), c)
                <==> forall q :: q in ps && q.at >= end ==> !Wanted(Opening(c.opening), q))
  {
    hide JsonText;
    hide Places;
    hide Rows;
    hide ReadRows;
    hide Openings;
    hide Inside;
    hide Wanted;
    hide QuotedKey;
    hide MemberText;
    hide StrChr;
    var ps := Places(t, 0);
    var p := ps[k];
    var start, end := p.at + |QuotedKey(p.member.key)|, p.at + |MemberText(p.member)|;
    ArrayLoop(t, k, c);
    NoMoreRows(ReadRows(ps, Openings(Inside(p), c.opening, start), c), ps, Openings(ps, c.opening, end - 1), c);
    NoOpenings(ps, c.opening, end - 1);
  }

  function TwoArrays(n: int): Json {
    Obj([Member("top_growers", Arr([])), Member("leakers", Arr([Obj([Member("pid", Int(n))])]))])
  }

  /** Two arrays, the first empty, an object without the columns in the second: the
      loop over the first shows it, with zeroes and no command. */
  lemma OtherArrayShown(n: int)
    requires INT64_MIN <= n <= INT64_MAX
    ensures var t := TwoArrays(n);
            && Places(t, 0) != [] && Places(t, 0)[0].at + |QuotedKey("top_growers")| <= |JsonText(t)|
            && Rows(JsonText(t)[Places(t, 0)[0].at + |QuotedKey("top_growers")|..], GROWERS)
               == [Row([n, 0, 0], "unknown")]
  {
    hide Rows;
    hide Places;
    hide ReadRow;
    hide StrChr;
    hide JsonText;
    hide QuotedKey;
    hide GoodColumns;
    hide IdentifierKeys;
    var t := TwoArrays(n);
    var start := 1 + |QuotedKey("top_growers")|;
    var p0, p1, p2 := TwoArrayPlaces(n);
    TwoArrayKeys(n);
    ArrayLoop(t, 0, GROWERS);
    RowsAreRead(t, GROWERS, start);
    LastOpening(p0, p1, p2, start);
    OneMore(Places(t, 0), p2, [], GROWERS);
    RowWithoutColumns(p0, p1, p2, n);
  }

  lemma LastOpening(p0: Place, p1: Place, p2: Place, start: nat)
    requires p0.member.key == "top_growers" && p1.member.key == "leakers"
    requires p2.member.key == "pid" && p2.first && p2.at > start
    ensures Openings([p0, p1, p2], "pid", start) == [p2] + []
  {
    var ps := [p0, p1, p2];
    assert ps[1..] == [p1, p2] && ps[1..][1..] == [p2] && ps[1..][1..][1..] == [];
    assert Openings([p2], "pid", start) == [p2] + [];
  }

  lemma TwoMemberPlaces(a: Member, b: Member)
    ensures Places(Obj([a, b]), 0)
         == MemberPlaces(a, [b], 1, true) + MemberPlaces(b, [], 2 + |MemberText(a)|, false)
  {
    hide MemberPlaces;
    assert [a, b][1..] == [b] && [b][1..] == [];
    MembersPlacesAre([a, b], 1, true);
    MembersPlacesAre([b], 2 + |MemberText(a)|, false);
    assert Places(Obj([a, b]), 0) == MembersPlaces([a, b], 1, true);
  }

  lemma OneObjectPlaces(m: Member, at: nat)
    requires m.value.Int?
    ensures Places(Arr([Obj([m])]), at) == [Place(at + 2, m, [], true)]
  {
    assert [m][1..] == [];
    MembersPlacesAre([m], at + 2, true);
    assert Places(m.value, at + 2 + |QuotedKey(m.key)|) == [];
    assert MemberPlaces(m, [], at + 2, true) == [Place(at + 2, m, [], true)];
    ItemsPlacesAre([Obj([m])], at + 1);
    assert Places(Obj([m]), at + 1) == MembersPlaces([m], at + 2, true);
  }

  lemma TwoArrayPlaces(n: int) returns (p0: Place, p1: Place, p2: Place)
    ensures var own := Member("pid", Int(n));
            var a, b := Member("top_growers", Arr([])), Member("leakers", Arr([Obj([own])]));
            && Places(Obj([a, b]), 0) == [p0, p1, p2]
            && p0 == Place(1, a, [b], true) && p1.member == b && !p1.first
            && p1.at > 1 + |QuotedKey("top_growers")| && p2.at > p1.at
            && p2.member == own && p2.first
  {
    hide QuotedKey;
    hide JsonText;
    var own := Member("pid", Int(n));
    var a, b := Member("top_growers", Arr([])), Member("leakers", Arr([Obj([own])]));
    var later := 2 + |MemberText(a)|;
    p0, p1 := Place(1, a, [b], true), Place(later, b, [], false);
    p2 := Place(later + |QuotedKey("leakers")| + 2, own, [], true);
    TwoMemberPlaces(a, b);
    assert Places(Arr([]), 1 + |QuotedKey("top_growers")|) == [];
    OneObjectPlaces(own, later + |QuotedKey("leakers")|);
    hide *;
    assert [p0] + [] + ([p1] + [p2]) == [p0, p1, p2];
  }

  lemma LiteralKeys()
    ensures Identifier("top_growers") && Identifier("leakers") && Identifier("pid")
    ensures GoodColumns(GROWERS)
  {
    assert Identifier("top_growers");
    assert Identifier("leakers");
    assert Identifier("pid");
    assert Identifier("rss_kb");
    assert Identifier("rss_delta_kb");
    assert Identifier("cmd");
  }

  lemma TwoArrayKeys(n: int)
    ensures IdentifierKeys(TwoArrays(n))
    ensures GoodColumns(GROWERS)
  {
    hide Identifier;
    hide GoodColumns;
    hide Lookup;
    LiteralKeys();
    OneMember(Member("pid", Int(n)), "pid");
    var items := [Obj([Member("pid", Int(n))])];
    assert IdentifierKeys(items[0]) && IdentifierKeys(Arr(items)) && IdentifierKeys(Arr([]));
    TwoMembers(Member("top_growers", Arr([])), Member("leakers", Arr(items)), "pid");
  }

  lemma RowWithoutColumns(p0: Place, p1: Place, p2: Place, n: int)
    requires p0.member.key == "top_growers" && p1.member.key == "leakers" && p2.member == Member("pid", Int(n))
    requires INT64_MIN <= n <= INT64_MAX && p2.at > 0
    ensures ReadRow([p0, p1, p2], p2, GROWERS) == Row([n, 0, 0], "unknown")
  {
    var ps, from := [p0, p1, p2], BraceOf(p2);
    assert ps[1..] == [p1, p2] && ps[1..][1..] == [p2] && ps[1..][1..][1..] == [];
    var i := NextIs(ps, KeyOf("pid"), from);
    assert ps[2] == p2 && Wanted(KeyOf("pid"), ps[2]);
    assert !Wanted(KeyOf("pid"), ps[0]) && !Wanted(KeyOf("pid"), ps[1]);
    assert Next(ps, KeyOf("pid"), from) == Some(p2);
    var j := NextIs(ps, KeyOf("rss_kb"), from);
    var l := NextIs(ps, KeyOf("rss_delta_kb"), from);
    var m := NextIs(ps, TextOf("cmd"), from);
    assert j == 3 && l == 3 && m == 3;
  }
}
