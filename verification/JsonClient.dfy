/** What the command-line client reads out of a reply (commands.c): its helpers search
    from wherever the last search ended, and on the daemon's output they return what
    a reader that knows the structure would. */
module JsonClient {
  import opened Sequences
  import opened Text
  import opened JsonTree
  import opened JsonKeys
  import opened JsonSearch

  const SEARCH_MAX: nat := 127

  /** The text searched for: snprintf into `char search[128]`. */
  function Pattern(key: string): string {
    var full := "\"" + key + "\":";
    full[..Min(|full|, SEARCH_MAX)]
  }

  /** json_find_key. */
  function FindKey(json: string, key: string): Option<nat> {
    StrStr(json, Pattern(key))
  }

  lemma PatternIsWhole(key: string)
    requires |key| <= SEARCH_MAX - 3
    ensures Pattern(key) == PatternOf(KeyOf(key))
  {
  }

  /** Keys of up to 124 bytes are searched for with their quotes and colon; longer ones
      lose the colon, then the closing quote, then bytes of their own. */
  lemma PatternIs(key: string)
    ensures |key| <= 124 ==> Pattern(key) == "\"" + key + "\":"
    ensures |key| == 125 ==> Pattern(key) == "\"" + key + "\""
    ensures |key| >= 126 ==> Pattern(key) == "\"" + key[..126]
  {
  }

  // ----- Any search finds the next member it is meant for -----

  function ValueOf(p: Option<Place>): Option<Json> {
    if p.Some? then Some(p.value.member.value) else None
  }

  lemma {:induction false} NextIs(ps: seq<Place>, w: Want, from: nat) returns (k: nat)
    ensures k <= |ps| && (k < |ps| <==> Next(ps, w, from).Some?)
    ensures k < |ps| ==> Next(ps, w, from) == Some(ps[k]) && ps[k].at >= from && Wanted(w, ps[k])
    ensures forall l :: 0 <= l < k ==> ps[l].at < from || !Wanted(w, ps[l])
  {
    if ps == [] {
      k := 0;
    } else if ps[0].at >= from && Wanted(w, ps[0]) {
      k := 0;
    } else {
      var n := NextIs(ps[1..], w, from);
      k := n + 1;
      assert forall l :: 0 < l < k ==> ps[l] == ps[1..][l - 1];
    }
  }

  lemma {:induction false} NextConcat(ps: seq<Place>, qs: seq<Place>, w: Want, from: nat)
    ensures Next(ps + qs, w, from) == if Next(ps, w, from).Some? then Next(ps, w, from) else Next(qs, w, from)
  {
    if ps == [] {
      assert ps + qs == qs;
    } else {
      assert (ps + qs)[1..] == ps[1..] + qs;
      NextConcat(ps[1..], qs, w, from);
    }
  }

  lemma MatchFrom(s: string, pattern: string, from: nat, j: nat)
    requires from <= |s|
    ensures MatchesAt(s[from..], pattern, j) <==> MatchesAt(s, pattern, from + j)
  {
    if from + j <= |s| {
      assert s[from..][j..] == s[from + j..];
    }
  }

  lemma FirstIs(text: string, pattern: string, i: nat)
    requires MatchesAt(text, pattern, i) && forall j: nat :: j < i ==> !MatchesAt(text, pattern, j)
    ensures StrStr(text, pattern) == Some(i)
  {
  }

  lemma NowhereIs(text: string, pattern: string)
    requires forall j: nat :: !MatchesAt(text, pattern, j)
    ensures StrStr(text, pattern).None?
  {
  }

  /** A search that starts in a listed stretch finds the first wanted member in it. */
  lemma FoundWithin(s: string, low: nat, to: nat, ps: seq<Place>, w: Want, from: nat)
    requires IdentifierBytes(w.key) && Lists(s, low, to, w.key, ps) && low <= from + Lead(w) && from <= |s|
    requires Next(ps, w, from + Lead(w)).Some?
    ensures var p := Next(ps, w, from + Lead(w)).value;
            && p in ps && from + Lead(w) <= p.at < to && Wanted(w, p) && Stands(s, p)
            && StrStr(s[from..], PatternOf(w)) == Some(p.at - Lead(w) - from)
  {
    hide StrStr;
    hide PatternOf;
    hide MatchesAt;
    hide Next;
    hide Stands;
    hide QuotedKey;
    var k := NextIs(ps, w, from + Lead(w));
    var p := ps[k];
    var i := p.at - Lead(w) - from;
    assert forall l :: k <= l < |ps| ==> ps[l].at >= p.at;
    forall j: nat | j <= i
      ensures MatchesAt(s[from..], PatternOf(w), j) <==> j == i
    {
      MatchFrom(s, PatternOf(w), from, j);
      MatchIffWanted(s, low, to, ps, w, from + j);
    }
    FirstIs(s[from..], PatternOf(w), i);
  }

  /** From any byte of the text of a value, whatever stands there, a search finds the
      first member it is meant for at or behind that byte, and nothing if none is. */
  lemma SearchFindsNext(t: Json, w: Want, from: nat)
    requires IdentifierKeys(t) && IdentifierBytes(w.key) && from <= |JsonText(t)|
    ensures match Next(Places(t, 0), w, from + Lead(w))
            case None => StrStr(JsonText(t)[from..], PatternOf(w)).None?
            case Some(p) =>
              && p.at >= from + Lead(w) && Wanted(w, p) && Stands(JsonText(t), p)
              && StrStr(JsonText(t)[from..], PatternOf(w)) == Some(p.at - Lead(w) - from)
  {
    hide StrStr;
    hide PatternOf;
    hide MatchesAt;
    hide Places;
    hide JsonText;
    hide Stands;
    hide Lists;
    var s, ps := JsonText(t), Places(t, 0);
    DocumentLists(t, w.key);
    if Next(ps, w, from + Lead(w)).Some? {
      FoundWithin(s, 0, |s|, ps, w, from);
    } else {
      var n := NextIs(ps, w, from + Lead(w));
      forall j: nat
        ensures !MatchesAt(s[from..], PatternOf(w), j)
      {
        MatchFrom(s, PatternOf(w), from, j);
        MatchIffMember(t, w, from + j);
      }
      NowhereIs(s[from..], PatternOf(w));
    }
  }

  // ----- Integers -----

  /** What json_get_int computes from the text. */
  function GetInt(json: string, key: string): int {
    match FindKey(json, key)
    case None => 0
    case Some(i) =>
      match StrChr(json[i..], ':')
      case None => 0
      case Some(k) => StrToLL(json[i..][k + 1..])
  }

  /** json_get_int, with its cursor loop. */
  method JsonGetInt(json: string, key: string) returns (r: int)
    ensures r == GetInt(json, key)
  {
    var found := FindKey(json, key);
    if found.None? { return 0; }
    var pos := json[found.value..];
    var colon := StrChr(pos, ':');
    if colon.None? { return 0; }
    pos := pos[colon.value + 1..];
    ghost var start := pos;
    while pos != "" && IsSpace(pos[0])
      invariant SkipSpace(pos) == SkipSpace(start)
      decreases |pos|
    {
      pos := pos[1..];
    }
    r := StrToLL(pos);
  }

  /** The integer the client takes a value for: integers clamp to 64 bits, a
      number with an exponent counts as its mantissa, anything else as 0. */
  function IntegerOf(v: Option<Json>): int {
    match v
    case Some(Int(n)) => Clamp(n, INT64_MIN, INT64_MAX)
    case Some(Real(m, e)) => Clamp(m, INT64_MIN, INT64_MAX)
    case _ => 0
  }

  /** Integers are read as they are up to 64 bits and as the nearest bound beyond; a
      member that is missing or holds no number reads as 0. */
  lemma IntegerIs(n: int, v: Json)
    ensures -9223372036854775808 <= n <= 9223372036854775807 ==> IntegerOf(Some(Int(n))) == n
    ensures n > 9223372036854775807 ==> IntegerOf(Some(Int(n))) == 9223372036854775807
    ensures n < -9223372036854775808 ==> IntegerOf(Some(Int(n))) == -9223372036854775808
    ensures IntegerOf(None) == 0 && (!v.Int? && !v.Real? ==> IntegerOf(Some(v)) == 0)
  {
  }

  lemma FirstColon(key: string, after: string)
    requires IdentifierBytes(key)
    ensures StrChr(QuotedKey(key) + after, ':') == Some(|key| + 2)
    ensures (QuotedKey(key) + after)[|key| + 3..] == after
  {
    IdentifierUnescaped(key);
    var s := QuotedKey(key) + after;
    assert s[|key| + 2] == ':';
    assert ':' !in s[..|key| + 2];
  }

  lemma ReadsNothing(s: string)
    requires s != "" && !IsSpace(s[0]) && !IsDigit(s[0]) && s[0] != '-' && s[0] != '+'
    ensures ReadInteger(s) == 0
  {
    assert SkipSpace(s) == s && s[..DigitRun(s)] == "";
  }

  lemma StrToLLOfValue(v: Json, tail: string)
    requires Ends(tail)
    ensures StrToLL(JsonText(v) + tail) == IntegerOf(Some(v))
  {
    match v {
      case Int(n) => ReadSigned(n, tail);
      case Real(m, e) =>
        Assoc4(Signed(m), "e", Signed(e), tail);
        ReadSigned(m, "e" + Signed(e) + tail);
      case _ =>
        assert (JsonText(v) + tail)[0] == JsonText(v)[0];
        ReadsNothing(JsonText(v) + tail);
    }
  }

  /** The integer read where a search for a key ended. */
  lemma IntegerAt(s: string, p: Place, from: nat)
    requires Stands(s, p) && |p.member.key| <= SEARCH_MAX - 3 && from <= p.at
    requires StrStr(s[from..], PatternOf(KeyOf(p.member.key))) == Some(p.at - from)
    ensures GetInt(s[from..], p.member.key) == IntegerOf(Some(p.member.value))
  {
    hide StrStr;
    hide JsonText;
    hide QuotedKey;
    hide Pattern;
    hide StrChr;
    hide StrToLL;
    hide IntegerOf;
    var key := p.member.key;
    PatternIsWhole(key);
    var tail := StandingText(s, p);
    var after := JsonText(p.member.value) + tail;
    assert s[from..][p.at - from..] == s[p.at..] == QuotedKey(key) + after;
    FirstColon(key, after);
    StrToLLOfValue(p.member.value, tail);
  }

  /** json_get_int, started at any byte of the text, returns the integer of the first
      member of that name at or behind it, for every 64-bit integer, and 0 if there is
      none. */
  lemma GetIntIsNext(t: Json, key: string, from: nat)
    requires IdentifierKeys(t) && IdentifierBytes(key) && |key| <= SEARCH_MAX - 3 && from <= |JsonText(t)|
    ensures GetInt(JsonText(t)[from..], key) == IntegerOf(ValueOf(Next(Places(t, 0), KeyOf(key), from)))
  {
    hide StrStr;
    hide PatternOf;
    hide Places;
    hide JsonText;
    hide Stands;
    hide Pattern;
    SearchFindsNext(t, KeyOf(key), from);
    PatternIsWhole(key);
    var p := Next(Places(t, 0), KeyOf(key), from);
    if p.Some? {
      IntegerAt(JsonText(t), p.value, from);
    }
  }

  // ----- Quoted strings -----

  const FIELD_MAX: nat := 63

  function UpToQuote(s: string): string {
    match StrChr(s, '\"')
    case Some(q) => s[..q]
    case None => s
  }

  /** A byte that needs no escape in a string value. */
  predicate Plain(c: char) {
    c >= ' ' && c != '\"' && c != '\\'
  }

  /** What the loops of the cmd_* functions copy for a string field: from behind
      `"key":"` to the next quote, cut to `char cmd[64]`; None where they keep
      "unknown". */
  function GetString(json: string, key: string): Option<string> {
    var pattern := "\"" + key + "\":\"";
    match StrStr(json, pattern)
    case None => None
    case Some(i) => CopyToQuote(json[i..][|pattern|..])
  }

  function CopyToQuote(start: string): Option<string> {
    match StrChr(start, '\"')
    case None => None
    case Some(n) => Some(start[..Min(n, FIELD_MAX)])
  }

  lemma CopiedValue(e: string, tail: string)
    ensures var shown := UpToQuote(e);
            CopyToQuote(e + "\"" + tail) == Some(shown[..Min(|shown|, FIELD_MAX)])
  {
    var s := e + "\"" + tail;
    var q := |UpToQuote(e)|;
    assert s[q] == '\"';
    assert s[..q] == UpToQuote(e);
    assert StrChr(s, '\"') == Some(q);
    assert s[..q][..Min(q, FIELD_MAX)] == s[..Min(q, FIELD_MAX)];
  }

  /** What is shown of a string value: its escaped form up to the first quote, at
      most 63 bytes. */
  function Shown(v: string): string {
    var shown := UpToQuote(EscapeString(v));
    shown[..Min(|shown|, FIELD_MAX)]
  }

  lemma TextAt(s: string, p: Place, from: nat)
    requires Stands(s, p) && p.member.value.Str? && from <= p.at
    requires StrStr(s[from..], PatternOf(TextOf(p.member.key))) == Some(p.at - from)
    ensures GetString(s[from..], p.member.key) == Some(Shown(p.member.value.s))
  {
    hide StrStr;
    hide CopyToQuote;
    hide UpToQuote;
    hide QuotedKey;
    var key, v := p.member.key, p.member.value.s;
    KeyIsPattern(key);
    var tail := StandingText(s, p);
    var start := EscapeString(v) + "\"" + tail;
    var pattern := PatternOf(TextOf(key));
    Assoc4("\"", EscapeString(v), "\"", tail);
    Assoc(EscapeString(v), "\"", tail);
    Assoc(QuotedKey(key), "\"", start);
    assert s[from..][p.at - from..] == s[p.at..] == pattern + start;
    assert (pattern + start)[|pattern|..] == start;
    CopiedValue(EscapeString(v), tail);
  }

  /** The quoted-string extraction, started at any byte, shows the first member of
      that name whose value is a string, and keeps "unknown" if there is none. */
  lemma GetStringIsNext(t: Json, key: string, from: nat)
    requires IdentifierKeys(t) && IdentifierBytes(key) && from <= |JsonText(t)|
    ensures GetString(JsonText(t)[from..], key)
         == match Next(Places(t, 0), TextOf(key), from)
            case None => None
            case Some(p) => if p.member.value.Str? then Some(Shown(p.member.value.s)) else None
  {
    hide StrStr;
    hide CopyToQuote;
    hide Places;
    hide JsonText;
    hide Stands;
    hide Shown;
    SearchFindsNext(t, TextOf(key), from);
    var p := Next(Places(t, 0), TextOf(key), from);
    if p.Some? {
      TextAt(JsonText(t), p.value, from);
    }
  }

  lemma {:induction false} EscapedLength(v: string)
    ensures |EscapeString(v)| >= |v|
    ensures |EscapeString(v)| == |v| <==> forall i :: 0 <= i < |v| ==> Plain(v[i])
    ensures |EscapeString(v)| == |v| ==> EscapeString(v) == v
    ensures '\"' in EscapeString(v) <==> '\"' in v
  {
    if v != "" {
      EscapedLength(v[1..]);
      Split(v);
      WrittenAsItself(v[0]);
      assert '\"' in EscapeChar(v[0]) <==> v[0] == '\"';
    }
  }

  /** Before the cut, what is shown is the string itself exactly when it holds no
      control byte, quote or backslash; and then the field is its first 63 bytes. */
  lemma ShownExactly(v: string)
    ensures UpToQuote(EscapeString(v)) == v
            <==> forall i :: 0 <= i < |v| ==> v[i] >= ' ' && v[i] != '\"' && v[i] != '\\'
    ensures (forall i :: 0 <= i < |v| ==> v[i] >= ' ' && v[i] != '\"' && v[i] != '\\') ==>
              Shown(v) == if |v| <= 63 then v else v[..63]
  {
    EscapedLength(v);
    assert (forall i :: 0 <= i < |v| ==> Plain(v[i]))
      <==> forall i :: 0 <= i < |v| ==> v[i] >= ' ' && v[i] != '\"' && v[i] != '\\';
  }

  /** With a quote in it, the string is shown in its escaped form up to the backslash
      that escapes the first quote; without one the whole escaped form, cut. */
  lemma ShownToFirstQuote(v: string, rest: string)
    requires '\"' !in v
    ensures UpToQuote(EscapeString(v)) == EscapeString(v)
    ensures UpToQuote(EscapeString(v + ("\"" + rest))) == EscapeString(v) + "\\"
  {
    hide EscapeString;
    EscapedLength(v);
    EscapeConcat(v, "\"" + rest);
    EscapedQuote(rest);
    CutAtQuote(EscapeString(v), EscapeString(rest));
  }

  lemma EscapedQuote(rest: string)
    ensures EscapeString("\"" + rest) == "\\\"" + EscapeString(rest)
  {
    HeadTail('\"', rest);
  }

  lemma CutAtQuote(e: string, rest: string)
    requires '\"' !in e
    ensures UpToQuote(e) == e && UpToQuote(e + ("\\\"" + rest)) == e + "\\"
  {
    var all := e + ("\\\"" + rest);
    assert all[..|e| + 1] == e + "\\" && all[|e| + 1] == '\"';
    StrChrIs(all, '\"', |e| + 1);
  }

  lemma {:induction false} EscapeConcat(a: string, b: string)
    ensures EscapeString(a + b) == EscapeString(a) + EscapeString(b)
  {
    if a == "" {
      assert a + b == b;
    } else {
      assert (a + b)[0] == a[0] && (a + b)[1..] == a[1..] + b;
      EscapeConcat(a[1..], b);
    }
  }

  // ----- Sections -----

  lemma {:induction false} NextIsLookup(t: Json, key: string, at: nat, from: nat)
    requires from <= at
    ensures ValueOf(Next(Places(t, at), KeyOf(key), from)) == Lookup(t, key)
    decreases t, 0
  {
    match t {
      case Arr(items) => NextInItems(items, key, at + 1, from);
      case Obj(members) => NextInMembers(members, key, at + 1, true, from);
      case _ =>
    }
  }

  lemma {:induction false} NextInItems(items: seq<Json>, key: string, at: nat, from: nat)
    requires from <= at
    ensures ValueOf(Next(ItemsPlaces(items, at), KeyOf(key), from)) == LookupItems(items, key)
    decreases items, 0
  {
    if items != [] {
      var later := at + |JsonText(items[0])| + 1;
      NextIsLookup(items[0], key, at, from);
      NextInItems(items[1..], key, later, from);
      NextConcat(Places(items[0], at), ItemsPlaces(items[1..], later), KeyOf(key), from);
    }
  }

  lemma {:induction false} NextInMember(m: Member, later: seq<Member>, key: string, at: nat, first: bool, from: nat)
    requires from <= at
    ensures ValueOf(Next(MemberPlaces(m, later, at, first), KeyOf(key), from)) == LookupMember(m, key)
    decreases m, 0
  {
    var p := Place(at, m, later, first);
    NextIsLookup(m.value, key, at + |QuotedKey(m.key)|, from);
    NextConcat([p], Places(m.value, at + |QuotedKey(m.key)|), KeyOf(key), from);
    assert [p][1..] == [];
  }

  /** Among the members of an object, each with what its value holds, the first of a
      name in text order. */
  lemma {:induction false} NextInMembers(members: seq<Member>, key: string, at: nat, first: bool, from: nat)
    requires from <= at
    ensures ValueOf(Next(MembersPlaces(members, at, first), KeyOf(key), from)) == LookupMembers(members, key)
    decreases members, 0
  {
    if members != [] {
      var later := at + |MemberText(members[0])| + 1;
      NextInMember(members[0], members[1..], key, at, first, from);
      NextInMembers(members[1..], key, later, false, from);
      NextConcat(MemberPlaces(members[0], members[1..], at, first), MembersPlaces(members[1..], later, false),
                 KeyOf(key), from);
    }
  }

  /** json_get_int over a whole reply returns the integer of the first structural
      occurrence. */
  lemma GetIntIsLookup(t: Json, key: string)
    requires IdentifierKeys(t) && IdentifierBytes(key) && |key| <= SEARCH_MAX - 3
    ensures GetInt(JsonText(t), key) == IntegerOf(Lookup(t, key))
  {
    GetIntIsNext(t, key, 0);
    NextIsLookup(t, key, 0, 0);
    assert JsonText(t)[0..] == JsonText(t);
  }

  /** json_find_key on a whole reply tells whether a key occurs in the structure. */
  lemma FindKeyIsLookup(t: Json, key: string)
    requires IdentifierKeys(t) && IdentifierBytes(key) && |key| <= SEARCH_MAX - 3
    ensures FindKey(JsonText(t), key).Some? <==> Lookup(t, key).Some?
  {
    hide StrStr;
    hide PatternOf;
    hide JsonText;
    hide Stands;
    SearchFindsNext(t, KeyOf(key), 0);
    NextIsLookup(t, key, 0, 0);
    PatternIsWhole(key);
    assert JsonText(t)[0..] == JsonText(t);
  }

  /** The members of a section: its own key and what its value holds. */
  lemma ListsSection(s: string, p: Place, key: string)
    requires Stands(s, p) && IdentifierBytes(key)
    ensures Lists(s, p.at, p.at + |MemberText(p.member)|, key,
                  [p] + Places(p.member.value, p.at + |QuotedKey(p.member.key)|))
  {
    hide Stands;
    hide Lists;
    hide JsonText;
    hide Places;
    hide QuotedKey;
    var tail := StandingText(s, p);
    PlaceIsIdentifier(s, p);
    Assoc(QuotedKey(p.member.key), JsonText(p.member.value), tail);
    ListsMember(s, p, tail, key);
  }

  /** A search that starts at the key of a section looks into the section first. */
  lemma SearchInSection(s: string, p: Place, key: string) returns (q: Place)
    requires Stands(s, p) && IdentifierBytes(key) && key != p.member.key
    requires Lookup(p.member.value, key).Some?
    ensures q.at >= p.at && q.member.key == key && Some(q.member.value) == Lookup(p.member.value, key)
    ensures Stands(s, q) && StrStr(s[p.at..], PatternOf(KeyOf(key))) == Some(q.at - p.at)
    ensures q.at < p.at + |MemberText(p.member)|
  {
    hide StrStr;
    hide Stands;
    hide Lists;
    hide JsonText;
    hide QuotedKey;
    hide PatternOf;
    hide Places;
    hide Lookup;
    var k, v := QuotedKey(p.member.key), p.member.value;
    PlaceIsIdentifier(s, p);
    ListsSection(s, p, key);
    var inner := Places(v, p.at + |k|);
    NextConcat([p], inner, KeyOf(key), p.at);
    assert [p][1..] == [] && Next([p], KeyOf(key), p.at).None?;
    NextIsLookup(v, key, p.at + |k|, p.at);
    FoundWithin(s, p.at, p.at + |MemberText(p.member)|, [p] + inner, KeyOf(key), p.at);
    q := Next([p] + inner, KeyOf(key), p.at).value;
  }

  lemma NothingWanted(s: string, low: nat, to: nat, ps: seq<Place>, w: Want, i: nat)
    requires IdentifierBytes(w.key) && Lists(s, low, to, w.key, ps) && low <= i + Lead(w) < to
    requires Next(ps, w, low).None?
    ensures !MatchesAt(s, PatternOf(w), i)
  {
    hide Stands;
    hide PatternOf;
    hide QuotedKey;
    MatchIffWanted(s, low, to, ps, w, i);
    var n := NextIs(ps, w, low);
  }

  /** Exactly when a search from a section's key stays in the section: the section has
      the key, or nothing behind its start has it. Otherwise the search goes on behind
      the section's end. */
  lemma SectionLeftIff(t: Json, p: Place, key: string)
    requires IdentifierKeys(t) && IdentifierBytes(key) && Stands(JsonText(t), p) && key != p.member.key
    ensures var found := StrStr(JsonText(t)[p.at..], PatternOf(KeyOf(key)));
            (found.None? || found.value < |MemberText(p.member)|)
            <==> Lookup(p.member.value, key).Some? || Next(Places(t, 0), KeyOf(key), p.at).None?
  {
    hide StrStr;
    hide Stands;
    hide Lists;
    hide JsonText;
    hide QuotedKey;
    hide MemberText;
    hide PatternOf;
    hide MatchesAt;
    hide Places;
    hide Lookup;
    var s, w := JsonText(t), KeyOf(key);
    PlaceIsIdentifier(s, p);
    SearchFindsNext(t, w, p.at);
    if Lookup(p.member.value, key).Some? {
      var q := SearchInSection(s, p, key);
    } else if Next(Places(t, 0), w, p.at).Some? {
      var q := Next(Places(t, 0), w, p.at).value;
      var inner := Places(p.member.value, p.at + |QuotedKey(p.member.key)|);
      ListsSection(s, p, key);
      NextIsLookup(p.member.value, key, p.at + |QuotedKey(p.member.key)|, p.at);
      NextConcat([p], inner, w, p.at);
      assert [p][1..] == [];
      PlaceMatches(s, q, w);
      if q.at < p.at + |MemberText(p.member)| {
        NothingWanted(s, p.at, p.at + |MemberText(p.member)|, [p] + inner, w, q.at);
      }
    }
  }

  /** And exactly when json_get_int then returns what the section has, 0 for a key it
      lacks: the section has the key, or the next one behind it reads as 0. */
  lemma SectionReadIff(t: Json, p: Place, key: string)
    requires IdentifierKeys(t) && IdentifierBytes(key) && Stands(JsonText(t), p) && key != p.member.key
    requires |key| <= SEARCH_MAX - 3
    ensures GetInt(JsonText(t)[p.at..], key) == IntegerOf(Lookup(p.member.value, key))
            <==> Lookup(p.member.value, key).Some? || IntegerOf(ValueOf(Next(Places(t, 0), KeyOf(key), p.at))) == 0
  {
    hide StrStr;
    hide Stands;
    hide JsonText;
    hide Places;
    hide Lookup;
    hide GetInt;
    PlaceIsIdentifier(JsonText(t), p);
    GetIntIsNext(t, key, p.at);
    if Lookup(p.member.value, key).Some? {
      var q := SearchInSection(JsonText(t), p, key);
      PlaceIsIdentifier(JsonText(t), q);
      IntegerAt(JsonText(t), q, p.at);
    }
  }

  /** A chain of strstr calls, each from where the last one ended. */
  function Seek(text: string, path: seq<string>): Option<string>
    decreases path
  {
    if path == [] then Some(text)
    else match StrStr(text, PatternOf(KeyOf(path[0])))
      case None => None
      case Some(i) => Seek(text[i..], path[1..])
  }

  /** What a reader that knows the structure would get: each key looked up in the
      value of the one before. */
  function Descend(t: Json, path: seq<string>): Option<Json>
    decreases path
  {
    if path == [] then Some(t)
    else match Lookup(t, path[0])
      case None => None
      case Some(v) => Descend(v, path[1..])
  }

  predicate GoodPath(path: seq<string>) {
    && (forall i :: 0 <= i < |path| ==> Identifier(path[i]))
    && (forall i :: 0 <= i < |path| - 1 ==> path[i] != path[i + 1])
  }

  lemma PathBehind(first: string, path: seq<string>)
    requires path != [] && GoodPath([first] + path)
    ensures IdentifierBytes(path[0]) && path[0] != first && [path[0]] + path[1..] == path && GoodPath(path)
    ensures ([first] + path)[|path|] == path[|path| - 1]
  {
    var keys := [first] + path;
    assert keys[0] == first && keys[1] == path[0];
    assert forall i :: 0 <= i < |path| ==> path[i] == keys[i + 1];
  }

  lemma {:induction false} SeekFromSection(s: string, p: Place, path: seq<string>) returns (q: Place)
    requires Stands(s, p) && GoodPath([p.member.key] + path) && Descend(p.member.value, path).Some?
    ensures Stands(s, q) && Some(q.member.value) == Descend(p.member.value, path)
    ensures Seek(s[p.at..], path) == Some(s[q.at..])
    ensures q.member.key == ([p.member.key] + path)[|path|]
    decreases path
  {
    hide StrStr;
    hide Stands;
    hide PatternOf;
    hide Lookup;
    PlaceIsIdentifier(s, p);
    if path == [] {
      q := p;
    } else {
      PathBehind(p.member.key, path);
      var r := SearchInSection(s, p, path[0]);
      q := SeekFromSection(s, r, path[1..]);
      PlaceIsIdentifier(s, r);
      assert s[p.at..][r.at - p.at..] == s[r.at..];
    }
  }

  /** Where a chain of searches ends, whatever the structure: each key's next member. */
  function Chain(ps: seq<Place>, path: seq<string>, from: nat): Option<nat>
    decreases path
  {
    if path == [] then Some(from)
    else match Next(ps, KeyOf(path[0]), from)
      case None => None
      case Some(p) => Chain(ps, path[1..], p.at)
  }

  lemma {:induction false} SeekIsChain(t: Json, path: seq<string>, from: nat)
    requires IdentifierKeys(t) && from <= |JsonText(t)|
    requires forall i :: 0 <= i < |path| ==> IdentifierBytes(path[i])
    ensures match Chain(Places(t, 0), path, from)
            case None => Seek(JsonText(t)[from..], path).None?
            case Some(at) => at <= |JsonText(t)| && Seek(JsonText(t)[from..], path) == Some(JsonText(t)[at..])
    decreases path
  {
    hide StrStr;
    hide Stands;
    hide PatternOf;
    hide Places;
    hide JsonText;
    if path != [] {
      SearchFindsNext(t, KeyOf(path[0]), from);
      var p := Next(Places(t, 0), KeyOf(path[0]), from);
      if p.Some? {
        PlaceIsIdentifier(JsonText(t), p.value);
        SeekIsChain(t, path[1..], p.value.at);
        assert JsonText(t)[from..][p.value.at - from..] == JsonText(t)[p.value.at..];
      }
    }
  }

  lemma GoodPathParts(path: seq<string>, key: string)
    requires GoodPath(path + [key])
    ensures IdentifierBytes(key) && GoodPath(path)
    ensures path != [] ==> path[|path| - 1] != key && [path[0]] + path[1..] == path
  {
    var all := path + [key];
    assert all[|path|] == key;
    assert forall i :: 0 <= i < |path| ==> path[i] == all[i];
    if path != [] {
      assert all[|path| - 1] == path[|path| - 1];
    }
  }

  /** Where a chain of searches along existing sections ends: at the last section. */
  lemma SeekReachesSection(t: Json, path: seq<string>) returns (q: Place)
    requires IdentifierKeys(t) && path != [] && GoodPath(path) && Descend(t, path).Some?
    ensures Stands(JsonText(t), q) && q.member.key == path[|path| - 1]
    ensures Some(q.member.value) == Descend(t, path) && Seek(JsonText(t), path) == Some(JsonText(t)[q.at..])
  {
    hide StrStr;
    hide Places;
    hide JsonText;
    hide PatternOf;
    hide Lookup;
    hide Stands;
    var s, first := JsonText(t), path[0];
    SearchFindsNext(t, KeyOf(first), 0);
    NextIsLookup(t, first, 0, 0);
    assert s[0..] == s;
    var p := Next(Places(t, 0), KeyOf(first), 0).value;
    assert [first] + path[1..] == path;
    q := SeekFromSection(s, p, path[1..]);
  }

  /** A chain of searches along sections the reply has, and then json_get_int from byte
      `from`, where the chain ended: the client reads what the structure has at the end
      of the path, 0 for a missing key, if and only if the key is there or the next one
      behind `from` reads as 0. */
  lemma PathReadIff(t: Json, path: seq<string>, key: string) returns (from: nat)
    requires IdentifierKeys(t) && GoodPath(path + [key]) && |key| <= SEARCH_MAX - 3
    requires Descend(t, path).Some?
    ensures from <= |JsonText(t)| && Seek(JsonText(t), path) == Some(JsonText(t)[from..])
    ensures GetInt(JsonText(t)[from..], key) == IntegerOf(Descend(t, path + [key]))
            <==> Descend(t, path + [key]).Some? || IntegerOf(ValueOf(Next(Places(t, 0), KeyOf(key), from))) == 0
  {
    hide StrStr;
    hide Places;
    hide JsonText;
    hide Lookup;
    hide GetInt;
    hide Stands;
    GoodPathParts(path, key);
    DescendAppend(t, path, key);
    if path == [] {
      from := 0;
      assert JsonText(t)[0..] == JsonText(t);
      GetIntIsLookup(t, key);
      NextIsLookup(t, key, 0, 0);
    } else {
      var q := SeekReachesSection(t, path);
      PlaceIsIdentifier(JsonText(t), q);
      SectionReadIff(t, q, key);
      from := q.at;
    }
  }

  /** If the reply has the nested value, the client reads its integer. */
  lemma PathIsDescent(t: Json, path: seq<string>, key: string)
    requires IdentifierKeys(t) && GoodPath(path + [key]) && |key| <= SEARCH_MAX - 3
    requires Descend(t, path + [key]).Some?
    ensures Seek(JsonText(t), path).Some?
    ensures GetInt(Seek(JsonText(t), path).value, key) == IntegerOf(Descend(t, path + [key]))
  {
    hide Seek;
    hide JsonText;
    hide GetInt;
    hide Places;
    hide Lookup;
    DescendAppend(t, path, key);
    var from := PathReadIff(t, path, key);
  }

  lemma OneStep(t: Json, key: string)
    ensures Descend(t, [key]) == Lookup(t, key)
  {
    assert [key][1..] == [];
  }

  lemma {:induction false} DescendAppend(t: Json, path: seq<string>, key: string)
    ensures Descend(t, path + [key])
         == match Descend(t, path) case None => None case Some(v) => Lookup(v, key)
    decreases path
  {
    if path == [] {
      assert path + [key] == [key];
      OneStep(t, key);
    } else {
      assert (path + [key])[0] == path[0] && (path + [key])[1..] == path[1..] + [key];
      if Lookup(t, path[0]).Some? {
        DescendAppend(Lookup(t, path[0]).value, path[1..], key);
      }
    }
  }

  lemma OneMember(m: Member, key: string)
    requires Identifier(m.key) && IdentifierKeys(m.value)
    ensures IdentifierKeys(Obj([m])) && Lookup(Obj([m]), key) == LookupMember(m, key)
  {
    assert IdentifierMember(m) && [m][0] == m && [m][1..] == [];
    assert Lookup(Obj([m]), key) == LookupMembers([m], key);
    assert LookupMembers([], key) == None;
  }

  lemma EmptyLookup(key: string)
    ensures Lookup(Obj([]), key).None? && IdentifierKeys(Obj([]))
  {
    assert Lookup(Obj([]), key) == LookupMembers([], key);
  }

  lemma TwoMembers(m: Member, n: Member, key: string)
    requires Identifier(m.key) && IdentifierKeys(m.value) && Identifier(n.key) && IdentifierKeys(n.value)
    ensures var t := Obj([m, n]);
            && IdentifierKeys(t)
            && Lookup(t, key) == (if LookupMember(m, key).Some? then LookupMember(m, key) else LookupMember(n, key))
            && Places(t, 0) != [] && Places(t, 0)[0] == Place(1, m, [n], true)
  {
    var members := [m, n];
    assert IdentifierMember(m) && IdentifierMember(n);
    assert members[0] == m && members[1..] == [n];
    assert Lookup(Obj(members), key) == LookupMembers(members, key);
    OneMember(n, key);
    assert Lookup(Obj([n]), key) == LookupMembers([n], key);
    MembersPlacesAre(members, 1, true);
  }

  /** The nested value has to be there: a field its own section lacks is read from a
      later section. */
  lemma MissingFieldReadElsewhere(n: int)
    requires INT64_MIN <= n <= INT64_MAX
    ensures var t := Obj([Member("a", Obj([])), Member("b", Obj([Member("k", Int(n))]))]);
            && Descend(t, ["a", "k"]).None? && Seek(JsonText(t), ["a"]).Some?
            && GetInt(Seek(JsonText(t), ["a"]).value, "k") == n
  {
    hide StrStr;
    hide JsonText;
    hide PatternOf;
    hide GetInt;
    hide Stands;
    hide Places;
    hide Lookup;
    var a, b := Member("a", Obj([])), Member("b", Obj([Member("k", Int(n))]));
    var t, s := Obj([a, b]), JsonText(Obj([a, b]));
    EmptyLookup("k");
    OneMember(Member("k", Int(n)), "k");
    TwoMembers(a, b, "k");
    TwoMembers(a, b, "a");
    assert ["a", "k"][1..] == ["k"];
    OneStep(Obj([]), "k");
    NextIsLookup(t, "k", 0, 0);
    SearchFindsNext(t, KeyOf("a"), 0);
    assert s[0..] == s;
    var ps := Places(t, 0);
    assert Next(ps, KeyOf("a"), 0) == Some(ps[0]);
    DocumentLists(t, "k");
    ListsWithin(s, 0, |s|, "k", ps);
    NextLater(ps, KeyOf("k"), 0, 1);
    GetIntIsNext(t, "k", 1);
    assert ["a"][1..] == [];
    assert Seek(s, ["a"]) == Seek(s[1..], []);
  }

  /** Members before `to` that are not wanted do not matter. */
  lemma {:induction false} NextLater(ps: seq<Place>, w: Want, from: nat, to: nat)
    requires from <= to && forall k :: 0 <= k < |ps| && from <= ps[k].at < to ==> !Wanted(w, ps[k])
    ensures Next(ps, w, from) == Next(ps, w, to)
  {
    if ps != [] {
      NextLater(ps[1..], w, from, to);
    }
  }

  // ----- A key given with its quotes -----

  lemma QuotesInPattern(s: string, key: string, i: nat)
    requires MatchesAt(s, "\"\"" + key + "\"\":", i)
    ensures MatchesAt(s, "\"\":", i + |key| + 2)
  {
    var p := "\"\"" + key + "\"\":";
    assert s[i..][..|p|] == p && p[|key| + 2..] == "\"\":";
    assert s[i..][|key| + 2..] == s[i + |key| + 2..];
    assert s[i..][|key| + 2..][..3] == s[i..][..|p|][|key| + 2..];
  }

  /** No reply holds an empty key, so a quote before `":` is never preceded by a quote. */
  lemma NoEmptyKey(t: Json, i: nat)
    requires IdentifierKeys(t)
    ensures !MatchesAt(JsonText(t), "\"\":", i)
  {
    hide Stands;
    hide Lists;
    hide JsonText;
    hide Places;
    MatchIffMember(t, KeyOf(""), i);
    assert PatternOf(KeyOf("")) == "\"\":";
    DocumentLists(t, "");
    StandingEverywhere(JsonText(t), 0, |JsonText(t)|, "", Places(t, 0));
  }

  lemma StandingEverywhere(s: string, from: nat, to: nat, key: string, ps: seq<Place>)
    requires Lists(s, from, to, key, ps)
    ensures forall k :: 0 <= k < |ps| ==> Stands(s, ps[k]) && ps[k].member.key != ""
  {
    forall k | 0 <= k < |ps|
      ensures Stands(s, ps[k]) && ps[k].member.key != ""
    {
      PlaceIsIdentifier(s, ps[k]);
    }
  }

  /** json_get_int with a key that comes in its own quotes, as for the total of the
      memory section: the doubled quotes match nowhere, and the result is always 0. */
  lemma QuotedKeyReadsNothing(t: Json, key: string, from: nat)
    requires IdentifierKeys(t) && |key| <= SEARCH_MAX - 5 && from <= |JsonText(t)|
    ensures GetInt(JsonText(t)[from..], "\"" + key + "\"") == 0
  {
    hide StrStr;
    hide JsonText;
    hide MatchesAt;
    var s, p := JsonText(t), "\"\"" + key + "\"\":";
    assert "\"" + ("\"" + key + "\"") + "\":" == p && p[..|p|] == p;
    assert Pattern("\"" + key + "\"") == p;
    forall j: nat
      ensures !MatchesAt(s[from..], p, j)
    {
      MatchFrom(s, p, from, j);
      if MatchesAt(s, p, from + j) {
        QuotesInPattern(s, key, from + j);
        NoEmptyKey(t, from + j + |key| + 2);
      }
    }
    NowhereIs(s[from..], p);
  }

  // ----- Long keys -----

  lemma CutPattern(key: string)
    requires |key| > SEARCH_MAX - 3
    ensures Pattern(key) <= "\"" + key + "\"" + "]"
  {
    var quoted := "\"" + key + "\"";
    assert "\"" + key + "\":" == quoted + ":";
    assert (quoted + ":")[..SEARCH_MAX] == (quoted + "]")[..SEARCH_MAX];
  }

  lemma OneStringText(v: string)
    requires IdentifierBytes(v)
    ensures JsonText(Arr([Str(v)])) == ['['] + ("\"" + v + "\"" + "]")
    ensures LookupItems([Str(v)], v).None?
  {
    IdentifierStringUnescaped(v);
    assert [Str(v)][1..] == [];
    assert JsonText(Str(v)) == "\"" + v + "\"";
    assert ItemsText([Str(v)]) == JsonText(Str(v));
    Assoc("[", "\"" + v + "\"", "]");
  }

  lemma MatchIsFound(text: string, p: string, i: nat)
    requires MatchesAt(text, p, i)
    ensures StrStr(text, p).Some?
  {
  }

  /** The bound on the key is needed: a longer identifier loses its colon to the
      128-byte buffer, and the search then also finds it as a string value. */
  lemma LongKeyFindsValue(key: string)
    requires Identifier(key) && |key| > SEARCH_MAX - 3
    ensures Lookup(Arr([Str(key)]), key).None?
    ensures FindKey(JsonText(Arr([Str(key)])), key).Some?
  {
    hide Pattern;
    hide JsonText;
    hide StrStr;
    OneStringText(key);
    CutPattern(key);
    var quoted := "\"" + key + "\"" + "]";
    HeadTail('[', quoted);
    MatchIsFound(['['] + quoted, Pattern(key), 1);
  }

  lemma {:induction false} IdentifierStringUnescaped(k: string)
    requires IdentifierBytes(k)
    ensures EscapeString(k) == k
  {
    if k != "" {
      IdentifierStringUnescaped(k[1..]);
      Split(k);
    }
  }
}
