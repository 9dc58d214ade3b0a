/** A parser for RFC 8259 texts (sections 2, 4 and 5 over the lexical grammar) and
    the round trip: what the builder writes, the parser reads back. */
module JsonParser {
  import opened Sequences
  import opened Text
  import opened JsonTree
  import opened JsonWriter
  import opened JsonLexer

  type Parsed<T> = Option<(T, seq<Token>)>

  predicate At(ts: seq<Token>, c: char) {
    ts != [] && ts[0] == Punct(c)
  }

  function ParseValue(ts: seq<Token>): (r: Parsed<Json>)
    ensures r.Some? ==> |r.value.1| < |ts|
    decreases |ts|, 0
  {
    if ts == [] then None
    else match ts[0]
      case Scalar(t) => Some((t, ts[1..]))
      case Chars(s) => Some((Str(s), ts[1..]))
      case Punct(c) =>
        if c == '[' then ParseArray(ts[1..])
        else if c == '{' then ParseObject(ts[1..])
        else None
  }

  /** An array after its opening bracket. */
  function ParseArray(ts: seq<Token>): (r: Parsed<Json>)
    ensures r.Some? ==> |r.value.1| < |ts|
    decreases |ts|, 3
  {
    if At(ts, ']') then Some((Arr([]), ts[1..]))
    else match ParseItems(ts)
      case Some((items, rest)) => Some((Arr(items), rest))
      case None => None
  }

  /** value *(value-separator value) end-array. */
  function ParseItems(ts: seq<Token>): (r: Parsed<seq<Json>>)
    ensures r.Some? ==> |r.value.1| < |ts|
    decreases |ts|, 2
  {
    match ParseValue(ts)
    case None => None
    case Some((t, rest)) =>
      if At(rest, ']') then Some(([t], rest[1..]))
      else if At(rest, ',') then
        match ParseItems(rest[1..])
        case Some((items, end)) => Some(([t] + items, end))
        case None => None
      else None
  }

  /** An object after its opening brace. */
  function ParseObject(ts: seq<Token>): (r: Parsed<Json>)
    ensures r.Some? ==> |r.value.1| < |ts|
    decreases |ts|, 3
  {
    if At(ts, '}') then Some((Obj([]), ts[1..]))
    else match ParseMembers(ts)
      case Some((members, rest)) => Some((Obj(members), rest))
      case None => None
  }

  /** member = string name-separator value. */
  function ParseMember(ts: seq<Token>): (r: Parsed<Member>)
    ensures r.Some? ==> |r.value.1| < |ts|
    decreases |ts|, 1
  {
    if ts == [] || !ts[0].Chars? || !At(ts[1..], ':') then None
    else match ParseValue(ts[2..])
      case Some((t, rest)) => Some((Member(ts[0].s, t), rest))
      case None => None
  }

  /** member *(value-separator member) end-object. */
  function ParseMembers(ts: seq<Token>): (r: Parsed<seq<Member>>)
    ensures r.Some? ==> |r.value.1| < |ts|
    decreases |ts|, 2
  {
    match ParseMember(ts)
    case None => None
    case Some((m, rest)) =>
      if At(rest, '}') then Some(([m], rest[1..]))
      else if At(rest, ',') then
        match ParseMembers(rest[1..])
        case Some((members, end)) => Some(([m] + members, end))
        case None => None
      else None
  }

  /** JSON-text = ws value ws. */
  function Parse(s: string): Option<Json> {
    match Lex(s)
    case None => None
    case Some(ts) =>
      match ParseValue(ts)
      case Some((t, rest)) => if rest == [] then Some(t) else None
      case None => None
  }

  // ----- The tokens of a value -----

  function Tokens(t: Json): (ts: seq<Token>)
    ensures ts != [] && !At(ts, ']') && !At(ts, '}')
    decreases t
  {
    match t
    case Str(s) => [Chars(s)]
    case Arr(items) => [Punct('[')] + ItemTokens(items) + [Punct(']')]
    case Obj(members) => [Punct('{')] + MemberTokens(members) + [Punct('}')]
    case _ => [Scalar(t)]
  }

  /** Items with their separators. */
  function ItemTokens(items: seq<Json>): seq<Token>
    decreases items
  {
    if items == [] then []
    else if |items| == 1 then Tokens(items[0])
    else Tokens(items[0]) + [Punct(',')] + ItemTokens(items[1..])
  }

  function OneMemberTokens(m: Member): (ts: seq<Token>)
    ensures ts != [] && ts[0].Chars?
    decreases m
  {
    [Chars(m.key), Punct(':')] + Tokens(m.value)
  }

  function MemberTokens(members: seq<Member>): seq<Token>
    decreases members
  {
    if members == [] then []
    else if |members| == 1 then OneMemberTokens(members[0])
    else OneMemberTokens(members[0]) + [Punct(',')] + MemberTokens(members[1..])
  }

  // ----- Lexing what was written -----

  function Guard(ok: bool, r: Option<seq<Token>>): Option<seq<Token>> {
    if ok then r else None
  }

  lemma PrependThrice(a: seq<Token>, b: seq<Token>, c: seq<Token>, r: Option<seq<Token>>)
    ensures Prepend(a, Prepend(b, Prepend(c, r))) == Prepend(a + b + c, r)
  {
    PrependTwice(b, c, r);
    PrependTwice(a, b + c, r);
    Assoc(a, b, c);
  }

  lemma LexBracketed(open: char, inner: string, close: char, rest: string, ok: bool, ts: seq<Token>)
    requires open in {'[', '{'} && close in {']', '}'}
    requires Lex(inner + ([close] + rest)) == Guard(ok, Prepend(ts, Lex([close] + rest)))
    ensures Lex([open] + inner + [close] + rest)
         == Guard(ok, Prepend([Punct(open)] + ts + [Punct(close)], Lex(rest)))
  {
    hide Lex;
    LexPunct(open, inner + ([close] + rest));
    LexPunct(close, rest);
    Assoc4([open], inner, [close], rest);
    PrependThrice([Punct(open)], ts, [Punct(close)], Lex(rest));
  }

  /** The text of `t` lexes to its tokens when its keys are printable, and is
      refused otherwise. */
  lemma {:induction false} LexValue(t: Json, rest: string)
    requires Ends(rest)
    ensures Lex(JsonText(t) + rest) == Guard(PrintableKeys(t), Prepend(Tokens(t), Lex(rest)))
    decreases t
  {
    hide Lex;
    match t {
      case Null => LexWord("null", rest);
      case Bool(b) => LexWord(Literal(b), rest);
      case Int(n) => LexInt(n, rest);
      case Real(m, e) =>
        Assoc4(Signed(m), "e", Signed(e), rest);
        LexReal(m, e, rest);
      case Str(v) => LexString(v, rest);
      case Arr(items) =>
        LexItems(items, [']'] + rest);
        LexBracketed('[', ItemsText(items), ']', rest, PrintableKeys(t), ItemTokens(items));
      case Obj(members) =>
        LexMembers(members, ['}'] + rest);
        LexBracketed('{', MembersText(members), '}', rest, PrintableKeys(t), MemberTokens(members));
    }
  }

  lemma LexEmpty(rest: string)
    ensures Lex("" + rest) == Guard(true, Prepend([], Lex(rest)))
  {
    assert "" + rest == rest;
    if Lex(rest).Some? {
      assert [] + Lex(rest).value == Lex(rest).value;
    }
  }

  lemma LexSeparated(first: string, more: string, rest: string, ok: bool, okMore: bool,
                     a: seq<Token>, b: seq<Token>)
    requires Lex(first + ([','] + (more + rest))) == Guard(ok, Prepend(a, Lex([','] + (more + rest))))
    requires Lex(more + rest) == Guard(okMore, Prepend(b, Lex(rest)))
    ensures Lex(first + "," + more + rest) == Guard(ok && okMore, Prepend(a + [Punct(',')] + b, Lex(rest)))
  {
    hide Lex;
    LexPunct(',', more + rest);
    Assoc4(first, ",", more, rest);
    PrependThrice(a, [Punct(',')], b, Lex(rest));
  }

  lemma {:induction false} LexItems(items: seq<Json>, rest: string)
    requires Ends(rest)
    ensures Lex(ItemsText(items) + rest)
         == Guard(PrintableKeys(Arr(items)), Prepend(ItemTokens(items), Lex(rest)))
    decreases items
  {
    hide Lex;
    if items == [] {
      LexEmpty(rest);
    } else if |items| == 1 {
      LexValue(items[0], rest);
    } else {
      LexValue(items[0], [','] + (ItemsText(items[1..]) + rest));
      LexItems(items[1..], rest);
      LexSeparated(JsonText(items[0]), ItemsText(items[1..]), rest,
                   PrintableKeys(items[0]), PrintableKeys(Arr(items[1..])),
                   Tokens(items[0]), ItemTokens(items[1..]));
    }
  }

  lemma {:induction false} LexMember(m: Member, rest: string)
    requires Ends(rest)
    ensures Lex(MemberText(m) + rest) == Guard(PrintableMember(m), Prepend(OneMemberTokens(m), Lex(rest)))
    decreases m
  {
    hide Lex;
    Assoc(QuotedKey(m.key), JsonText(m.value), rest);
    LexKey(m.key, JsonText(m.value) + rest);
    LexValue(m.value, rest);
    PrependTwice([Chars(m.key), Punct(':')], Tokens(m.value), Lex(rest));
  }

  lemma {:induction false} LexMembers(members: seq<Member>, rest: string)
    requires Ends(rest)
    ensures Lex(MembersText(members) + rest)
         == Guard(PrintableKeys(Obj(members)), Prepend(MemberTokens(members), Lex(rest)))
    decreases members
  {
    hide Lex;
    if members == [] {
      LexEmpty(rest);
    } else if |members| == 1 {
      LexMember(members[0], rest);
    } else {
      LexMember(members[0], [','] + (MembersText(members[1..]) + rest));
      LexMembers(members[1..], rest);
      LexSeparated(MemberText(members[0]), MembersText(members[1..]), rest,
                   PrintableMember(members[0]), PrintableKeys(Obj(members[1..])),
                   OneMemberTokens(members[0]), MemberTokens(members[1..]));
    }
  }

  // ----- Parsing the tokens -----

  lemma ArrayTokensParse(items: seq<Json>, rest: seq<Token>)
    requires items != [] ==> ParseItems(ItemTokens(items) + ([Punct(']')] + rest)) == Some((items, rest))
    ensures ParseValue(Tokens(Arr(items)) + rest) == Some((Arr(items), rest))
  {
    var close := [Punct(']')] + rest;
    Assoc4([Punct('[')], ItemTokens(items), [Punct(']')], rest);
    HeadTail(Punct('['), ItemTokens(items) + close);
    if items == [] {
      HeadTail(Punct(']'), rest);
      assert ItemTokens(items) + close == close;
    } else {
      assert (ItemTokens(items) + close)[0] == Tokens(items[0])[0];
    }
  }

  lemma ObjectTokensParse(members: seq<Member>, rest: seq<Token>)
    requires members != [] ==> ParseMembers(MemberTokens(members) + ([Punct('}')] + rest)) == Some((members, rest))
    ensures ParseValue(Tokens(Obj(members)) + rest) == Some((Obj(members), rest))
  {
    var close := [Punct('}')] + rest;
    Assoc4([Punct('{')], MemberTokens(members), [Punct('}')], rest);
    HeadTail(Punct('{'), MemberTokens(members) + close);
    if members == [] {
      HeadTail(Punct('}'), rest);
      assert MemberTokens(members) + close == close;
    } else {
      assert (MemberTokens(members) + close)[0] == OneMemberTokens(members[0])[0];
    }
  }

  lemma {:induction false} TokensParse(t: Json, rest: seq<Token>)
    ensures ParseValue(Tokens(t) + rest) == Some((t, rest))
    decreases t
  {
    match t {
      case Arr(items) =>
        if items != [] {
          ItemTokensParse(items, rest);
        }
        ArrayTokensParse(items, rest);
      case Obj(members) =>
        if members != [] {
          MemberTokensParse(members, rest);
        }
        ObjectTokensParse(members, rest);
      case _ => HeadTail(Tokens(t)[0], rest);
    }
  }

  lemma ItemsStep(ts: seq<Token>, t: Json, rest: seq<Token>)
    requires ParseValue(ts) == Some((t, rest))
    ensures At(rest, ']') ==> ParseItems(ts) == Some(([t], rest[1..]))
    ensures At(rest, ',') && ParseItems(rest[1..]).Some?
            ==> var (items, end) := ParseItems(rest[1..]).value; ParseItems(ts) == Some(([t] + items, end))
  {
    hide ParseValue;
  }

  lemma {:induction false} ItemTokensParse(items: seq<Json>, rest: seq<Token>)
    requires items != []
    ensures ParseItems(ItemTokens(items) + ([Punct(']')] + rest)) == Some((items, rest))
    decreases items
  {
    hide ParseValue;
    hide ParseItems;
    Split(items);
    if |items| == 1 {
      assert items == [items[0]];
      HeadTail(Punct(']'), rest);
      TokensParse(items[0], [Punct(']')] + rest);
      ItemsStep(ItemTokens(items) + ([Punct(']')] + rest), items[0], [Punct(']')] + rest);
    } else {
      var tail := ItemTokens(items[1..]) + ([Punct(']')] + rest);
      Assoc4(Tokens(items[0]), [Punct(',')], ItemTokens(items[1..]), [Punct(']')] + rest);
      HeadTail(Punct(','), tail);
      TokensParse(items[0], [Punct(',')] + tail);
      ItemTokensParse(items[1..], rest);
      ItemsStep(ItemTokens(items) + ([Punct(']')] + rest), items[0], [Punct(',')] + tail);
    }
  }

  lemma {:induction false} OneMemberParses(m: Member, rest: seq<Token>)
    ensures ParseMember(OneMemberTokens(m) + rest) == Some((m, rest))
    decreases m
  {
    hide ParseValue;
    var ts := OneMemberTokens(m) + rest;
    assert ts[0] == Chars(m.key) && ts[1..][0] == Punct(':') && ts[2..] == Tokens(m.value) + rest;
    TokensParse(m.value, rest);
  }

  lemma MembersStep(ts: seq<Token>, m: Member, rest: seq<Token>)
    requires ParseMember(ts) == Some((m, rest))
    ensures At(rest, '}') ==> ParseMembers(ts) == Some(([m], rest[1..]))
    ensures At(rest, ',') && ParseMembers(rest[1..]).Some?
            ==> var (members, end) := ParseMembers(rest[1..]).value; ParseMembers(ts) == Some(([m] + members, end))
  {
    hide ParseMember;
  }

  lemma {:induction false} MemberTokensParse(members: seq<Member>, rest: seq<Token>)
    requires members != []
    ensures ParseMembers(MemberTokens(members) + ([Punct('}')] + rest)) == Some((members, rest))
    decreases members
  {
    hide ParseMember;
    hide ParseMembers;
    Split(members);
    if |members| == 1 {
      assert members == [members[0]];
      HeadTail(Punct('}'), rest);
      OneMemberParses(members[0], [Punct('}')] + rest);
      MembersStep(MemberTokens(members) + ([Punct('}')] + rest), members[0], [Punct('}')] + rest);
    } else {
      var tail := MemberTokens(members[1..]) + ([Punct('}')] + rest);
      Assoc4(OneMemberTokens(members[0]), [Punct(',')], MemberTokens(members[1..]), [Punct('}')] + rest);
      HeadTail(Punct(','), tail);
      OneMemberParses(members[0], [Punct(',')] + tail);
      MemberTokensParse(members[1..], rest);
      MembersStep(MemberTokens(members) + ([Punct('}')] + rest), members[0], [Punct(',')] + tail);
    }
  }

  /** Round trip, with its exact condition: the text of a value parses back to the
      value if and only if no key holds a control byte other than newline, carriage
      return and tab; with such a key the text is not JSON at all. */
  lemma RoundTrip(t: Json)
    ensures Parse(JsonText(t)) == if PrintableKeys(t) then Some(t) else None
  {
    assert JsonText(t) + "" == JsonText(t);
    LexValue(t, "");
    assert Tokens(t) + [] == Tokens(t);
    TokensParse(t, []);
  }

  /** Any legal sequence of builder calls that finishes its document writes a text
      an RFC 8259 parser reads back as the document the calls describe. */
  lemma CallsRoundTrip(ops: seq<Op>, t: Json)
    requires Describes(ops, t)
    ensures Parse(Run(BLANK, ops).text) == if PrintableKeys(t) then Some(t) else None
  {
    FinishedText(ops, t);
    RoundTrip(t);
  }

  /** A key the builder does not escape well enough: the one-byte key 0x01. */
  lemma ControlByteInKey()
    ensures Parse(Run(BLANK, [ObjectStart, Key([1 as char]), PutInt(7), ObjectEnd]).text) == None
  {
    var t := Obj([Member([1 as char], Int(7))]);
    assert !MemberHasReal(t.members[0]);
    assert MemberCalls(t.members[1..]) == [];
    assert MemberCalls(t.members) == [Key([1 as char])] + [PutInt(7)];
    assert Calls(t) == [ObjectStart, Key([1 as char]), PutInt(7), ObjectEnd];
    CallsWriteText(t);
    RoundTrip(t);
    assert !PrintableMember(t.members[0]) by {
      assert !PrintableInKey(t.members[0].key[0]);
    }
  }
}
