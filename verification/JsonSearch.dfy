/** Where the command-line client's search patterns can match in the text of a value.
    The client never parses the daemon's JSON; it looks for `"key":`, `"key":"` and
    `{"key":`. On builder output these match exactly at the members they are meant
    for, whatever bytes the string values hold. */
module JsonSearch {
  import opened Sequences
  import opened Text
  import opened JsonTree
  import opened JsonKeys

  // ----- The members of a document and where they stand -----

  /** A member in a text: `at` is the byte of its key's opening quote, `later` are the
      members behind it in the same object, `first` says whether it opens the object. */
  datatype Place = Place(at: nat, member: Member, later: seq<Member>, first: bool)

  /** The members of a value at any depth, in text order, for a text that starts at
      byte `at`. */
  function Places(t: Json, at: nat): seq<Place>
    decreases t
  {
    match t
    case Arr(items) => ItemsPlaces(items, at + 1)
    case Obj(members) => MembersPlaces(members, at + 1, true)
    case _ => []
  }

  function ItemsPlaces(items: seq<Json>, at: nat): seq<Place>
    decreases items
  {
    if items == [] then []
    else Places(items[0], at) + ItemsPlaces(items[1..], at + |JsonText(items[0])| + 1)
  }

  function MembersPlaces(members: seq<Member>, at: nat, first: bool): seq<Place>
    decreases members
  {
    if members == [] then []
    else MemberPlaces(members[0], members[1..], at, first)
         + MembersPlaces(members[1..], at + |MemberText(members[0])| + 1, false)
  }

  function MemberPlaces(m: Member, later: seq<Member>, at: nat, first: bool): seq<Place>
    decreases m, 0
  {
    [Place(at, m, later, first)] + Places(m.value, at + |QuotedKey(m.key)|)
  }

  /** The text at a place: the rest of its object, behind the byte that shows whether
      the member is the object's first. */
  ghost predicate Stands(s: string, p: Place) {
    && 0 < p.at <= |s| && s[p.at - 1] == (if p.first then '{' else ',')
    && (exists tail :: HeldBefore(s, p, tail))
    && IdentifierMember(p.member) && forall i :: 0 <= i < |p.later| ==> IdentifierMember(p.later[i])
  }

  ghost predicate HeldBefore(s: string, p: Place, tail: string)
    requires p.at <= |s|
  {
    Ends(tail) && s[p.at..] == MembersText([p.member] + p.later) + ("}" + tail)
  }

  ghost predicate Ascending(ps: seq<Place>) {
    forall k, l :: 0 <= k < l < |ps| ==> ps[k].at < ps[l].at
  }

  /** Between bytes `from` and `to` the members `ps` stand, and the quoted `key`
      matches nowhere but at those of that name. */
  ghost predicate Lists(s: string, from: nat, to: nat, key: string, ps: seq<Place>) {
    && from <= to <= |s| && Ascending(ps)
    && (forall k :: 0 <= k < |ps| ==> from <= ps[k].at < to && Stands(s, ps[k]))
    && (forall j: nat :: from <= j < to && MatchesAt(s, QuotedKey(key), j) ==> KeyStands(ps, key, j))
  }

  predicate KeyStands(ps: seq<Place>, key: string, j: nat) {
    exists k :: 0 <= k < |ps| && ps[k].at == j && ps[k].member.key == key
  }

  lemma ListsConcat(s: string, a: nat, b: nat, c: nat, key: string, ps: seq<Place>, qs: seq<Place>)
    requires Lists(s, a, b, key, ps) && Lists(s, b, c, key, qs)
    ensures Lists(s, a, c, key, ps + qs)
  {
    hide Stands;
    hide QuotedKey;
    hide MatchesAt;
    var all := ps + qs;
    assert forall k :: 0 <= k < |ps| ==> all[k] == ps[k];
    assert forall k :: 0 <= k < |qs| ==> all[|ps| + k] == qs[k];
    forall j: nat | a <= j < c && MatchesAt(s, QuotedKey(key), j)
      ensures KeyStands(all, key, j)
    {
      if j < b {
        var k :| 0 <= k < |ps| && ps[k].at == j && ps[k].member.key == key;
        assert all[k].at == j;
      } else {
        var k :| 0 <= k < |qs| && qs[k].at == j && qs[k].member.key == key;
        assert all[|ps| + k].at == j;
      }
    }
  }

  lemma Slide(s: string, at: nat, a: string, rest: string)
    requires at <= |s| && s[at..] == a + rest
    ensures at + |a| <= |s| && s[at + |a|..] == rest && s[at..at + |a|] == a
  {
    assert s[at..][|a|..] == rest && s[at..][..|a|] == a;
  }

  lemma BehindComma(s: string, at: nat, a: string, more: string)
    requires at <= |s| && s[at..] == a + ("," + more)
    ensures at + |a| < |s| && s[at + |a|..] == "," + more
    ensures s[at + |a|] == ',' && s[at + |a| + 1..] == more
  {
    Slide(s, at, a, "," + more);
    Slide(s, at + |a|, ",", more);
  }

  /** A stretch in which nothing matches lists nothing. */
  lemma ListsNothing(s: string, at: nat, n: nat, key: string)
    requires at + n <= |s| && NoMatch(s[at..], QuotedKey(key), n)
    ensures Lists(s, at, at + n, key, [])
  {
    forall j: nat | at <= j < at + n
      ensures !MatchesAt(s, QuotedKey(key), j)
    {
      assert s[at..][j - at..] == s[j..];
      assert !MatchesAt(s[at..], QuotedKey(key), j - at);
    }
  }

  lemma ListsUnquoted(s: string, at: nat, a: string, rest: string, key: string)
    requires at <= |s| && s[at..] == a + rest && '\"' !in a
    ensures Lists(s, at, at + |a|, key, [])
  {
    Slide(s, at, a, rest);
    NoMatchUnquoted(a, rest, QuotedKey(key));
    ListsNothing(s, at, |a|, key);
  }

  lemma ListsString(s: string, at: nat, v: string, rest: string, key: string)
    requires at <= |s| && s[at..] == QuotedString(v) + rest && IdentifierBytes(key) && Ends(rest)
    ensures Lists(s, at, at + |QuotedString(v)|, key, [])
  {
    Slide(s, at, QuotedString(v), rest);
    IdentifierUnescaped(key);
    var inner := EscapeString(v) + ("\"" + rest);
    Assoc4("\"", EscapeString(v), "\"", rest);
    NoMatchAtOpeningQuote(key, v, rest);
    NoMatchInString(key, v, rest);
    NoMatchConcat("\"", inner, QuotedKey(key), |EscapeString(v)| + 1);
    ListsNothing(s, at, |QuotedString(v)|, key);
  }

  /** A key is matched at its opening quote by its own name, and nowhere else. */
  lemma KeyMatch(k: string, rest: string, key: string)
    requires IdentifierBytes(key) && Identifier(k)
    ensures NoMatch(QuotedKey(k) + rest, QuotedKey(key), if k == key then 0 else |QuotedKey(k)|)
    ensures forall j: nat :: 0 < j < |QuotedKey(k)| ==> !MatchesAt(QuotedKey(k) + rest, QuotedKey(key), j)
  {
    IdentifierUnescaped(key);
    IdentifierUnescaped(k);
    var p := QuotedKey(key);
    var s := QuotedKey(k) + rest;
    forall j: nat | j < |QuotedKey(k)| && MatchesAt(s, p, j)
      ensures j == 0 && k == key
    {
      assert s[j..][0] == QuotedKey(k)[j];
      assert s[j] == p[0] == '\"';
      assert j == 0 || j == |k| + 1;
      assert s[j + 1] == s[j..][1] == p[1];
      if k != key {
        assert s[0..] == s;
        KeysDiffer(k, rest, key, p, s);
      }
    }
  }

  /** The key of a place and nothing else is matched within that key. */
  lemma ListsKey(s: string, p: Place, rest: string, key: string)
    requires IdentifierBytes(key) && Stands(s, p) && s[p.at..] == QuotedKey(p.member.key) + rest
    ensures Lists(s, p.at, p.at + |QuotedKey(p.member.key)|, key, [p])
  {
    var k := p.member.key;
    Slide(s, p.at, QuotedKey(k), rest);
    KeyMatch(k, rest, key);
    forall j: nat | p.at <= j < p.at + |QuotedKey(k)| && MatchesAt(s, QuotedKey(key), j)
      ensures KeyStands([p], key, j)
    {
      assert s[p.at..][j - p.at..] == s[j..];
      assert MatchesAt(s[p.at..], QuotedKey(key), j - p.at);
      assert [p][0].at == j;
    }
  }

  lemma {:induction false} ListsMember(s: string, p: Place, rest: string, key: string)
    requires Stands(s, p) && IdentifierBytes(key)
    requires s[p.at..] == MemberText(p.member) + rest && Ends(rest)
    ensures Lists(s, p.at, p.at + |MemberText(p.member)|, key, MemberPlaces(p.member, p.later, p.at, p.first))
    decreases p.member, 0
  {
    hide Lists;
    hide Stands;
    hide JsonText;
    var m := p.member;
    var q := QuotedKey(m.key);
    PlaceIsIdentifier(s, p);
    Assoc(q, JsonText(m.value), rest);
    Slide(s, p.at, q, JsonText(m.value) + rest);
    ListsKey(s, p, JsonText(m.value) + rest, key);
    ListsValue(s, p.at + |q|, m.value, rest, key);
    ListsConcat(s, p.at, p.at + |q|, p.at + |q| + |JsonText(m.value)|, key, [p], Places(m.value, p.at + |q|));
  }

  lemma PlaceIsIdentifier(s: string, p: Place)
    requires Stands(s, p)
    ensures IdentifierMember(p.member) && Identifier(p.member.key) && IdentifierKeys(p.member.value)
    ensures 0 < p.at <= |s|
  {
  }

  lemma MembersStart(members: seq<Member>, rest: string)
    requires members != []
    ensures var n := |MemberText(members[0])|;
            && MembersText(members) + ("}" + rest)
               == MemberText(members[0]) + (if |members| == 1 then "}" + rest
                                            else "," + (MembersText(members[1..]) + ("}" + rest)))
            && |MembersText(members)| == if |members| == 1 then n else n + 1 + |MembersText(members[1..])|
  {
    if |members| > 1 {
      var more := MembersText(members[1..]);
      Assoc(MemberText(members[0]), ",", more);
      Assoc(MemberText(members[0]), "," + more, "}" + rest);
      Assoc(",", more, "}" + rest);
    }
  }

  lemma MembersPlacesAre(members: seq<Member>, at: nat, first: bool)
    ensures members == [] ==> MembersText(members) == "" && MembersPlaces(members, at, first) == []
    ensures |members| == 1 ==>
              MembersPlaces(members, at, first) == MemberPlaces(members[0], members[1..], at, first)
    ensures |members| > 1 ==>
              MembersPlaces(members, at, first)
              == MemberPlaces(members[0], members[1..], at, first)
                 + MembersPlaces(members[1..], at + |MemberText(members[0])| + 1, false)
  {
    if |members| == 1 {
      assert members[1..] == [];
      assert MembersPlaces(members[1..], at + |MemberText(members[0])| + 1, false) == [];
    }
  }

  lemma HeldStands(s: string, p: Place, tail: string)
    requires 0 < p.at <= |s| && s[p.at - 1] == (if p.first then '{' else ',') && HeldBefore(s, p, tail)
    requires IdentifierMember(p.member) && forall i :: 0 <= i < |p.later| ==> IdentifierMember(p.later[i])
    ensures Stands(s, p)
  {
  }

  lemma {:induction false} ListsFirstMember(s: string, at: nat, members: seq<Member>, first: bool, rest: string,
                                            key: string)
    requires members != [] && forall i :: 0 <= i < |members| ==> IdentifierMember(members[i])
    requires IdentifierBytes(key) && Ends(rest) && 0 < at <= |s| && s[at - 1] == (if first then '{' else ',')
    requires s[at..] == MembersText(members) + ("}" + rest)
    ensures Lists(s, at, at + |MemberText(members[0])|, key, MemberPlaces(members[0], members[1..], at, first))
    ensures |members| > 1 ==>
              var n, more := |MemberText(members[0])|, MembersText(members[1..]) + ("}" + rest);
              at + n < |s| && s[at + n..] == "," + more && s[at + n] == ',' && s[at + n + 1..] == more
    decreases members, 0
  {
    hide Lists;
    hide MemberText;
    hide MemberPlaces;
    hide IdentifierBytes;
    hide MembersText;
    hide Stands;
    hide IdentifierMember;
    var more := MembersText(members[1..]) + ("}" + rest);
    var p := Place(at, members[0], members[1..], first);
    Split(members);
    HeldStands(s, p, rest);
    MembersStart(members, rest);
    ListsMember(s, p, if |members| == 1 then "}" + rest else "," + more, key);
    if |members| > 1 {
      BehindComma(s, at, MemberText(members[0]), more);
    }
  }

  /** The members from one on to the end of their object. */
  lemma {:induction false} ListsMembers(s: string, at: nat, members: seq<Member>, first: bool, rest: string,
                                        key: string)
    requires forall i :: 0 <= i < |members| ==> IdentifierMember(members[i])
    requires IdentifierBytes(key) && Ends(rest) && 0 < at <= |s| && s[at - 1] == (if first then '{' else ',')
    requires s[at..] == MembersText(members) + ("}" + rest)
    ensures Lists(s, at, at + |MembersText(members)|, key, MembersPlaces(members, at, first))
    decreases members, 1
  {
    hide Lists;
    hide MemberText;
    hide MemberPlaces;
    hide IdentifierBytes;
    hide MembersText;
    hide MembersPlaces;
    hide IdentifierMember;
    MembersPlacesAre(members, at, first);
    if members == [] {
      ListsUnquoted(s, at, "", "}" + rest, key);
    } else {
      var m, n := members[0], |MemberText(members[0])|;
      MembersStart(members, rest);
      ListsFirstMember(s, at, members, first, rest, key);
      if |members| > 1 {
        ListsMembers(s, at + n + 1, members[1..], false, rest, key);
        ListsAcrossComma(s, at, n, at + |MembersText(members)|, MembersText(members[1..]) + ("}" + rest), key,
                         MemberPlaces(m, members[1..], at, first), MembersPlaces(members[1..], at + n + 1, false));
      }
    }
  }

  /** One element, the comma behind it, and the elements after that. */
  lemma ListsAcrossComma(s: string, at: nat, n: nat, end: nat, more: string, key: string, ps: seq<Place>,
                         qs: seq<Place>)
    requires at + n <= |s| && s[at + n..] == "," + more
    requires Lists(s, at, at + n, key, ps) && Lists(s, at + n + 1, end, key, qs)
    ensures Lists(s, at, end, key, ps + qs)
  {
    hide Lists;
    ListsUnquoted(s, at + n, ",", more, key);
    ListsConcat(s, at, at + n, at + n + 1, key, ps, []);
    assert ps + [] == ps;
    ListsConcat(s, at, at + n + 1, end, key, ps, qs);
  }

  lemma ItemsStart(items: seq<Json>, rest: string)
    requires items != []
    ensures var n := |JsonText(items[0])|;
            && ItemsText(items) + rest
               == JsonText(items[0]) + (if |items| == 1 then rest else "," + (ItemsText(items[1..]) + rest))
            && |ItemsText(items)| == if |items| == 1 then n else n + 1 + |ItemsText(items[1..])|
  {
    if |items| > 1 {
      var more := ItemsText(items[1..]);
      Assoc(JsonText(items[0]), ",", more);
      Assoc(JsonText(items[0]), "," + more, rest);
      Assoc(",", more, rest);
    }
  }

  lemma ItemsPlacesAre(items: seq<Json>, at: nat)
    ensures items == [] ==> ItemsText(items) == "" && ItemsPlaces(items, at) == []
    ensures |items| == 1 ==> ItemsPlaces(items, at) == Places(items[0], at)
    ensures |items| > 1 ==>
              ItemsPlaces(items, at) == Places(items[0], at) + ItemsPlaces(items[1..], at + |JsonText(items[0])| + 1)
  {
    if |items| == 1 {
      assert items[1..] == [];
      assert ItemsPlaces(items[1..], at + |JsonText(items[0])| + 1) == [];
    }
  }

  lemma {:induction false} ListsFirstItem(s: string, at: nat, items: seq<Json>, rest: string, key: string)
    requires items != [] && IdentifierKeys(items[0])
    requires IdentifierBytes(key) && Ends(rest) && at <= |s| && s[at..] == ItemsText(items) + rest
    ensures Lists(s, at, at + |JsonText(items[0])|, key, Places(items[0], at))
    ensures |items| > 1 ==>
              var n := |JsonText(items[0])|;
              && at + n < |s| && s[at + n..] == "," + (ItemsText(items[1..]) + rest)
              && s[at + n + 1..] == ItemsText(items[1..]) + rest
    decreases items, 0
  {
    hide Lists;
    hide JsonText;
    hide Places;
    hide ItemsText;
    hide IdentifierBytes;
    hide IdentifierKeys;
    ItemsStart(items, rest);
    var more := ItemsText(items[1..]) + rest;
    ListsValue(s, at, items[0], if |items| == 1 then rest else "," + more, key);
    if |items| > 1 {
      BehindComma(s, at, JsonText(items[0]), more);
    }
  }

  lemma {:induction false} ListsItems(s: string, at: nat, items: seq<Json>, rest: string, key: string)
    requires forall i :: 0 <= i < |items| ==> IdentifierKeys(items[i])
    requires IdentifierBytes(key) && Ends(rest) && at <= |s|
    requires s[at..] == ItemsText(items) + rest
    ensures Lists(s, at, at + |ItemsText(items)|, key, ItemsPlaces(items, at))
    decreases items, 1
  {
    hide Lists;
    hide JsonText;
    hide Places;
    hide ItemsText;
    hide IdentifierBytes;
    hide ItemsPlaces;
    hide IdentifierKeys;
    ItemsPlacesAre(items, at);
    if items == [] {
      ListsUnquoted(s, at, "", rest, key);
    } else {
      var n := |JsonText(items[0])|;
      ItemsStart(items, rest);
      ListsFirstItem(s, at, items, rest, key);
      if |items| > 1 {
        ListsItems(s, at + n + 1, items[1..], rest, key);
        ListsAcrossComma(s, at, n, at + |ItemsText(items)|, ItemsText(items[1..]) + rest, key, Places(items[0], at),
                         ItemsPlaces(items[1..], at + n + 1));
      }
    }
  }

  /** What stands between two brackets, with the brackets. */
  lemma ListsBracketed(s: string, at: nat, open: char, inner: string, close: char, rest: string, key: string,
                       ps: seq<Place>)
    requires open != '\"' && close != '\"'
    requires at <= |s| && s[at..] == [open] + inner + [close] + rest
    requires at < |s| && s[at + 1..] == inner + ([close] + rest) && Lists(s, at + 1, at + 1 + |inner|, key, ps)
    ensures Lists(s, at, at + |inner| + 2, key, ps)
  {
    hide Lists;
    assert s[at..] == [open] + (inner + ([close] + rest));
    ListsUnquoted(s, at, [open], inner + ([close] + rest), key);
    ListsConcat(s, at, at + 1, at + 1 + |inner|, key, [], ps);
    Slide(s, at + 1, inner, [close] + rest);
    ListsUnquoted(s, at + 1 + |inner|, [close], rest, key);
    assert [] + ps == ps;
    ListsConcat(s, at, at + 1 + |inner|, at + 2 + |inner|, key, ps, []);
    assert ps + [] == ps;
  }

  lemma InBrackets(s: string, at: nat, open: char, inner: string, close: char, rest: string)
    requires at <= |s| && s[at..] == [open] + inner + [close] + rest
    ensures at < |s| && s[at] == open && s[at + 1..] == inner + ([close] + rest)
  {
    Assoc4([open], inner, [close], rest);
    Slide(s, at, [open], inner + ([close] + rest));
  }

  /** Wherever the text of a value stands, exactly its members are matched in it. */
  lemma {:induction false} ListsValue(s: string, at: nat, t: Json, rest: string, key: string)
    requires IdentifierKeys(t) && IdentifierBytes(key) && Ends(rest) && at <= |s| && s[at..] == JsonText(t) + rest
    ensures Lists(s, at, at + |JsonText(t)|, key, Places(t, at))
    decreases t, 0
  {
    hide Lists;
    hide ItemsText;
    hide ItemsPlaces;
    hide MembersText;
    hide IdentifierBytes;
    hide MembersPlaces;
    hide QuotedString;
    match t {
      case Str(v) => ListsString(s, at, v, rest, key);
      case Arr(items) =>
        InBrackets(s, at, '[', ItemsText(items), ']', rest);
        ListsItems(s, at + 1, items, "]" + rest, key);
        ListsBracketed(s, at, '[', ItemsText(items), ']', rest, key, Places(t, at));
      case Obj(members) =>
        InBrackets(s, at, '{', MembersText(members), '}', rest);
        ListsMembers(s, at + 1, members, true, rest, key);
        ListsBracketed(s, at, '{', MembersText(members), '}', rest, key, Places(t, at));
      case Int(n) =>
        SignedUnquoted(n);
        ListsUnquoted(s, at, JsonText(t), rest, key);
      case Real(m, e) =>
        SignedUnquoted(m);
        SignedUnquoted(e);
        ListsUnquoted(s, at, JsonText(t), rest, key);
      case _ => ListsUnquoted(s, at, JsonText(t), rest, key);
    }
  }

  // ----- What each search pattern finds -----

  /** The three searches of the client: for a key, for a key with a string behind it,
      and for an object that begins with a key. */
  datatype Want = KeyOf(key: string) | TextOf(key: string) | Opening(key: string)

  function PatternOf(w: Want): string {
    match w
    case KeyOf(k) => "\"" + k + "\":"
    case TextOf(k) => "\"" + k + "\":\""
    case Opening(k) => "{\"" + k + "\":"
  }

  /** How many bytes of the pattern come before the key's opening quote. */
  function Lead(w: Want): nat {
    if w.Opening? then 1 else 0
  }

  /** The members a search is meant for. */
  predicate Wanted(w: Want, p: Place) {
    && p.member.key == w.key
    && (w.TextOf? ==> p.member.value.Str?)
    && (w.Opening? ==> p.first)
  }

  predicate WantedAt(ps: seq<Place>, w: Want, i: nat) {
    exists k :: 0 <= k < |ps| && ps[k].at == i + Lead(w) && Wanted(w, ps[k])
  }

  /** The first wanted member at or behind byte `from`. */
  function Next(ps: seq<Place>, w: Want, from: nat): Option<Place> {
    if ps == [] then None
    else if ps[0].at >= from && Wanted(w, ps[0]) then Some(ps[0])
    else Next(ps[1..], w, from)
  }

  /** The text at a place, from its key on. */
  lemma StandingText(s: string, p: Place) returns (tail: string)
    requires Stands(s, p)
    ensures Ends(tail) && s[p.at..] == QuotedKey(p.member.key) + (JsonText(p.member.value) + tail)
    ensures tail != "" && Identifier(p.member.key)
  {
    hide MembersText;
    hide JsonText;
    hide QuotedKey;
    var rest :| HeldBefore(s, p, rest);
    var members := [p.member] + p.later;
    MembersStart(members, rest);
    assert members[0] == p.member;
    tail := if |members| == 1 then "}" + rest else "," + (MembersText(members[1..]) + ("}" + rest));
    Assoc(QuotedKey(p.member.key), JsonText(p.member.value), tail);
  }

  lemma KeyIsPattern(key: string)
    requires IdentifierBytes(key)
    ensures QuotedKey(key) == "\"" + key + "\":" == PatternOf(KeyOf(key))
    ensures PatternOf(TextOf(key)) == QuotedKey(key) + "\""
    ensures PatternOf(Opening(key)) == ['{'] + QuotedKey(key)
  {
    hide EscapeKey;
    IdentifierUnescaped(key);
    assert "\":\"" == "\":" + "\"" && "{\"" == "{" + "\"";
    Assoc("\"" + key, "\":", "\"");
    Assoc("{", "\"", key);
    Assoc("{", "\"" + key, "\":");
  }

  /** A value's text begins with a quote exactly if it is a string. */
  lemma QuoteMeansString(v: Json, tail: string)
    ensures "\"" <= JsonText(v) + tail <==> v.Str?
  {
    assert (JsonText(v) + tail)[0] == JsonText(v)[0];
  }

  lemma PrefixSplit(s: string, a: string, b: string, rest: string)
    requires s == a + rest
    ensures a + b <= s <==> b <= rest
  {
    if a + b <= s {
      assert s[|a|..|a| + |b|] == b && s[|a|..] == rest;
    }
  }

  lemma OneBefore(s: string, i: nat, c: char, q: string)
    requires 0 < i <= |s|
    ensures [c] + q <= s[i - 1..] <==> s[i - 1] == c && q <= s[i..]
  {
    assert s[i - 1..] == [s[i - 1]] + s[i..];
    if [c] + q <= s[i - 1..] {
      assert s[i - 1..][0] == ([c] + q)[0] && s[i - 1..][1..1 + |q|] == ([c] + q)[1..];
    }
  }

  /** At a place of the key itself the pattern matches exactly if it wants the place. */
  lemma PlaceMatches(s: string, p: Place, w: Want)
    requires Stands(s, p) && IdentifierBytes(w.key) && p.member.key == w.key && p.at >= Lead(w)
    ensures MatchesAt(s, PatternOf(w), p.at - Lead(w)) <==> Wanted(w, p)
  {
    hide JsonText;
    hide QuotedKey;
    hide PatternOf;
    KeyIsPattern(w.key);
    var tail := StandingText(s, p);
    var v := p.member.value;
    var q := QuotedKey(w.key);
    match w {
      case KeyOf(_) =>
        assert q <= q + (JsonText(v) + tail);
      case TextOf(_) =>
        QuoteMeansString(v, tail);
        PrefixSplit(s[p.at..], q, "\"", JsonText(v) + tail);
      case Opening(_) =>
        assert q <= q + (JsonText(v) + tail);
        OneBefore(s, p.at, '{', q);
    }
  }

  /** Whatever pattern matches, its key stands behind its lead. */
  lemma PatternHoldsKey(s: string, w: Want, i: nat)
    requires IdentifierBytes(w.key) && MatchesAt(s, PatternOf(w), i)
    ensures MatchesAt(s, QuotedKey(w.key), i + Lead(w))
    ensures i + Lead(w) < |s| && (w.Opening? ==> s[i] == '{')
  {
    hide QuotedKey;
    hide PatternOf;
    KeyIsPattern(w.key);
    var q := QuotedKey(w.key);
    if w.Opening? {
      assert |['{'] + q| > 0;
      OneBefore(s, i + 1, '{', q);
    } else {
      assert q <= PatternOf(w);
    }
  }

  /** Within a listed stretch a pattern matches exactly at the members it wants. */
  lemma MatchIffWanted(s: string, from: nat, to: nat, ps: seq<Place>, w: Want, i: nat)
    requires IdentifierBytes(w.key) && Lists(s, from, to, w.key, ps) && from <= i + Lead(w) < to
    ensures MatchesAt(s, PatternOf(w), i) <==> WantedAt(ps, w, i)
  {
    hide Stands;
    hide PatternOf;
    hide QuotedKey;
    if MatchesAt(s, PatternOf(w), i) {
      PatternHoldsKey(s, w, i);
      assert KeyStands(ps, w.key, i + Lead(w));
      var k :| 0 <= k < |ps| && ps[k].at == i + Lead(w) && ps[k].member.key == w.key;
      PlaceMatches(s, ps[k], w);
    }
    if WantedAt(ps, w, i) {
      var k :| 0 <= k < |ps| && ps[k].at == i + Lead(w) && Wanted(w, ps[k]);
      PlaceMatches(s, ps[k], w);
    }
  }

  lemma DocumentLists(t: Json, key: string)
    requires IdentifierKeys(t) && IdentifierBytes(key)
    ensures Lists(JsonText(t), 0, |JsonText(t)|, key, Places(t, 0))
  {
    hide Lists;
    hide Places;
    hide IdentifierBytes;
    hide JsonText;
    var s := JsonText(t);
    assert s + "" == s && s[0..] == s;
    ListsValue(s, 0, t, "", key);
  }

  /** In the text of any value with identifier keys, at every byte: a search pattern
      matches there if and only if a member it is meant for stands there. It never
      matches inside a string value, whatever the string's bytes. */
  lemma MatchIffMember(t: Json, w: Want, i: nat)
    requires IdentifierKeys(t) && IdentifierBytes(w.key)
    ensures MatchesAt(JsonText(t), PatternOf(w), i) <==> WantedAt(Places(t, 0), w, i)
  {
    hide Lists;
    hide JsonText;
    hide Places;
    hide PatternOf;
    DocumentLists(t, w.key);
    var s := JsonText(t);
    ListsWithin(s, 0, |s|, w.key, Places(t, 0));
    if MatchesAt(s, PatternOf(w), i) {
      PatternHoldsKey(s, w, i);
    }
    if i + Lead(w) < |s| {
      MatchIffWanted(s, 0, |s|, Places(t, 0), w, i);
    }
  }

  lemma ListsWithin(s: string, from: nat, to: nat, key: string, ps: seq<Place>)
    requires Lists(s, from, to, key, ps)
    ensures forall k :: 0 <= k < |ps| ==> from <= ps[k].at < to
    ensures Ascending(ps)
  {
  }
}
