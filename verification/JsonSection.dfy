/** Printing one section of a reply (print_json_section in commands.c): the end of an
    object or array is found by counting brackets of its own kind, those inside string
    values included. */
module JsonSection {
  import opened Sequences
  import opened Text
  import opened JsonTree
  import opened JsonKeys
  import opened JsonSearch
  import opened JsonClient

  /** How many bytes the bracket loop consumes, starting inside `depth` open brackets. */
  function Scan(s: string, open: char, close: char, depth: nat): (n: nat)
    ensures n <= |s|
  {
    if s == "" || depth == 0 then 0
    else 1 + Scan(s[1..], open, close, if s[0] == open then depth + 1 else if s[0] == close then depth - 1 else depth)
  }

  /** How many bytes the loop over a string consumes before its closing quote: a
      backslash takes the next byte with it. The C loop reads on behind the end of the
      text where a backslash is its last byte, so the result may exceed the text. */
  function ScanString(s: string): nat
    decreases |s|
  {
    if s == "" || s[0] == '\"' then 0
    else if s[0] == '\\' then (if |s| == 1 then 2 else 2 + ScanString(s[2..]))
    else 1 + ScanString(s[1..])
  }

  predicate IsWordByte(c: char) {
    IsDigit(c) || 'a' <= c <= 'z' || 'A' <= c <= 'Z' || c == '.' || c == '-'
  }

  function ScanWord(s: string): (n: nat)
    ensures n <= |s|
  {
    if s == "" || !IsWordByte(s[0]) then 0 else 1 + ScanWord(s[1..])
  }

  /** The `if (*end) end++` behind the loops. */
  function OneMore(pos: string, end: nat): nat {
    if end < |pos| then end + 1 else end
  }

  /** Where the text written to the terminal ends, from the value's first byte. */
  function SectionEnd(pos: string): nat {
    if pos == "" then 0
    else if pos[0] == '{' then OneMore(pos, 1 + Scan(pos[1..], '{', '}', 1))
    else if pos[0] == '[' then OneMore(pos, 1 + Scan(pos[1..], '[', ']', 1))
    else if pos[0] == '\"' then OneMore(pos, 1 + ScanString(pos[1..]))
    else ScanWord(pos)
  }

  /** The bracket loop, behind the first bracket. */
  method FindClose(pos: string, open: char, close: char) returns (end: nat)
    requires pos != ""
    ensures end == 1 + Scan(pos[1..], open, close, 1)
  {
    var depth := 1;
    end := 1;
    while end < |pos| && depth > 0
      invariant 1 <= end <= |pos| && 0 <= depth
      invariant end + Scan(pos[end..], open, close, depth) == 1 + Scan(pos[1..], open, close, 1)
    {
      assert pos[end..][1..] == pos[end + 1..];
      if pos[end] == open {
        depth := depth + 1;
      } else if pos[end] == close {
        depth := depth - 1;
      }
      end := end + 1;
    }
  }

  /** The loop to a string's closing quote. */
  method FindQuote(pos: string) returns (end: nat)
    requires pos != ""
    ensures end == 1 + ScanString(pos[1..])
  {
    end := 1;
    while end < |pos| && pos[end] != '\"'
      invariant 1 <= end
      invariant end <= |pos| ==> end + ScanString(pos[end..]) == 1 + ScanString(pos[1..])
      invariant end > |pos| ==> end == 1 + ScanString(pos[1..])
      decreases |pos| - end
    {
      StringStep(pos, end);
      if pos[end] == '\\' {
        end := end + 1;
      }
      end := end + 1;
    }
  }

  /** The loop over a number or literal. */
  method FindWordEnd(pos: string) returns (end: nat)
    ensures end == ScanWord(pos)
  {
    end := 0;
    while end < |pos| && IsWordByte(pos[end])
      invariant 0 <= end <= |pos| && end + ScanWord(pos[end..]) == ScanWord(pos)
    {
      assert pos[end..][1..] == pos[end + 1..];
      end := end + 1;
    }
  }

  /** The search for the section's end in print_json_section. */
  method FindEnd(pos: string) returns (end: nat)
    ensures end == SectionEnd(pos)
  {
    hide Scan;
    hide ScanString;
    hide ScanWord;
    if pos == "" { return 0; }
    if pos[0] == '{' || pos[0] == '[' {
      end := FindClose(pos, pos[0], if pos[0] == '{' then '}' else ']');
      if end < |pos| {
        end := end + 1;
      }
    } else if pos[0] == '\"' {
      end := FindQuote(pos);
      if end < |pos| {
        end := end + 1;
      }
    } else {
      end := FindWordEnd(pos);
    }
  }

  lemma StringStep(pos: string, end: nat)
    requires end < |pos| && pos[end] != '\"'
    ensures pos[end] != '\\' ==> ScanString(pos[end..]) == 1 + ScanString(pos[end + 1..])
    ensures pos[end] == '\\' && end + 2 <= |pos| ==> ScanString(pos[end..]) == 2 + ScanString(pos[end + 2..])
    ensures pos[end] == '\\' && end + 2 > |pos| ==> ScanString(pos[end..]) == 2
  {
    var s := pos[end..];
    assert s[1..] == pos[end + 1..];
    if end + 2 <= |pos| {
      assert s[2..] == pos[end + 2..];
    }
  }

  // ----- Objects and arrays -----

  /** The brackets left open after `s`, from `depth` open ones; None once a closing one
      has met none open. */
  function OpenAfter(s: string, open: char, close: char, depth: nat): Option<nat> {
    if s == "" then Some(depth)
    else if s[0] == open then OpenAfter(s[1..], open, close, depth + 1)
    else if s[0] != close then OpenAfter(s[1..], open, close, depth)
    else if depth == 0 then None
    else OpenAfter(s[1..], open, close, depth - 1)
  }

  /** Where the bracket loop stops: inside, if a closing bracket meets none open;
      otherwise it takes the container's own bracket, and goes on behind it as long as
      brackets are open. */
  lemma {:induction false} ScanIs(inner: string, open: char, close: char, rest: string, depth: nat)
    requires open != close
    ensures match OpenAfter(inner, open, close, depth)
            case None => Scan(inner + ([close] + rest), open, close, depth + 1) <= |inner|
            case Some(d) =>
              Scan(inner + ([close] + rest), open, close, depth + 1) == |inner| + 1 + Scan(rest, open, close, d)
  {
    var s := inner + ([close] + rest);
    if inner == "" {
      assert s == [close] + rest && s[1..] == rest;
    } else {
      assert s[0] == inner[0] && s[1..] == inner[1..] + ([close] + rest);
      if inner[0] == open {
        ScanIs(inner[1..], open, close, rest, depth + 1);
      } else if inner[0] != close {
        ScanIs(inner[1..], open, close, rest, depth);
      } else if depth > 0 {
        ScanIs(inner[1..], open, close, rest, depth - 1);
      }
    }
  }

  /** The text between a container's brackets. */
  function InnerText(v: Json): string
    requires v.Arr? || v.Obj?
  {
    if v.Arr? then ItemsText(v.items) else MembersText(v.members)
  }

  function OpenOf(v: Json): char {
    if v.Arr? then '[' else '{'
  }

  function CloseOf(v: Json): char {
    if v.Arr? then ']' else '}'
  }

  /** For an object or array inside a reply, what is printed is the value and exactly
      one byte more, the comma or bracket behind it, if and only if the brackets of its
      kind match in between, those in strings counting like all others - or some are
      left open and a single byte follows, at which the loop ends with the text. */
  lemma ContainerPrinted(v: Json, rest: string)
    requires (v.Arr? || v.Obj?) && rest != ""
    ensures var after := OpenAfter(InnerText(v), OpenOf(v), CloseOf(v), 0);
            SectionEnd(JsonText(v) + rest) == |JsonText(v)| + 1
            <==> after == Some(0) || (after.Some? && |rest| == 1)
  {
    hide ItemsText;
    hide MembersText;
    hide OpenAfter;
    var inner, open, close := InnerText(v), OpenOf(v), CloseOf(v);
    var behind := inner + ([close] + rest);
    ContainerText(v);
    Assoc4([open], inner, [close], rest);
    assert JsonText(v) + rest == [open] + behind;
    HeadTail(open, behind);
    ScanIs(inner, open, close, rest, 0);
  }

  lemma ContainerText(v: Json)
    requires v.Arr? || v.Obj?
    ensures JsonText(v) == [OpenOf(v)] + InnerText(v) + [CloseOf(v)]
  {
  }

  // ----- When the brackets match -----

  lemma {:induction false} OpenAfterConcat(a: string, b: string, open: char, close: char, depth: nat)
    ensures OpenAfter(a + b, open, close, depth)
         == match OpenAfter(a, open, close, depth)
            case None => None
            case Some(d) => OpenAfter(b, open, close, d)
  {
    if a == "" {
      assert a + b == b;
    } else {
      assert (a + b)[1..] == a[1..] + b;
      if a[0] == open {
        OpenAfterConcat(a[1..], b, open, close, depth + 1);
      } else if a[0] != close {
        OpenAfterConcat(a[1..], b, open, close, depth);
      } else if depth > 0 {
        OpenAfterConcat(a[1..], b, open, close, depth - 1);
      }
    }
  }

  lemma {:induction false} NoBrackets(s: string, open: char, close: char, depth: nat)
    requires open !in s && close !in s
    ensures OpenAfter(s, open, close, depth) == Some(depth)
  {
    if s != "" {
      NoBrackets(s[1..], open, close, depth);
    }
  }

  predicate Brackets(open: char, close: char) {
    (open == '{' && close == '}') || (open == '[' && close == ']')
  }

  /** No string in the value holds a bracket of the kind. */
  predicate FreeOf(t: Json, open: char, close: char)
    decreases t
  {
    match t
    case Str(s) => open !in s && close !in s
    case Arr(items) => forall i :: 0 <= i < |items| ==> FreeOf(items[i], open, close)
    case Obj(members) => forall i :: 0 <= i < |members| ==> MemberFreeOf(members[i], open, close)
    case _ => true
  }

  predicate MemberFreeOf(m: Member, open: char, close: char)
    decreases m
  {
    FreeOf(m.value, open, close)
  }

  lemma {:induction false} EscapesKeepBrackets(s: string, open: char, close: char)
    requires Brackets(open, close) && open !in s && close !in s
    ensures open !in EscapeString(s) && close !in EscapeString(s)
  {
    if s != "" {
      EscapesKeepBrackets(s[1..], open, close);
      assert s[0] in s;
      assert open !in EscapeChar(s[0]) && close !in EscapeChar(s[0]);
    }
  }

  lemma DigitsHoldNone(n: int, open: char, close: char, depth: nat)
    requires Brackets(open, close)
    ensures open !in Signed(n) && close !in Signed(n)
  {
    var d := Decimal(if n < 0 then -n else n);
    assert open !in d && close !in d;
  }

  lemma KeyHoldsNone(key: string, open: char, close: char)
    requires Brackets(open, close) && Identifier(key)
    ensures open !in QuotedKey(key) && close !in QuotedKey(key)
  {
    IdentifierUnescaped(key);
  }

  /** The text of a value leaves the bracket count as it was, if no string in it holds a
      bracket of the kind. */
  lemma {:induction false} ValueBalances(t: Json, open: char, close: char, depth: nat)
    requires Brackets(open, close) && IdentifierKeys(t) && FreeOf(t, open, close)
    ensures OpenAfter(JsonText(t), open, close, depth) == Some(depth)
    decreases t, 0
  {
    hide OpenAfter;
    match t {
      case Str(s) =>
        EscapesKeepBrackets(s, open, close);
        NoBrackets(JsonText(t), open, close, depth);
      case Arr(items) =>
        ItemsBalance(items, open, close, if open == '[' then depth + 1 else depth);
        InBracketsBalances(t, open, close, depth);
      case Obj(members) =>
        MembersBalance(members, open, close, if open == '{' then depth + 1 else depth);
        InBracketsBalances(t, open, close, depth);
      case Int(n) =>
        DigitsHoldNone(n, open, close, depth);
        NoBrackets(JsonText(t), open, close, depth);
      case Real(m, e) =>
        DigitsHoldNone(m, open, close, depth);
        DigitsHoldNone(e, open, close, depth);
        NoBrackets(JsonText(t), open, close, depth);
      case _ => NoBrackets(JsonText(t), open, close, depth);
    }
  }

  lemma InBracketsBalances(v: Json, open: char, close: char, depth: nat)
    requires (v.Arr? || v.Obj?) && Brackets(open, close)
    requires var d := if open == OpenOf(v) then depth + 1 else depth;
             OpenAfter(InnerText(v), open, close, d) == Some(d)
    ensures OpenAfter(JsonText(v), open, close, depth) == Some(depth)
  {
    var d := if open == OpenOf(v) then depth + 1 else depth;
    var inner := InnerText(v);
    ContainerText(v);
    OpenAfterConcat([OpenOf(v)] + inner, [CloseOf(v)], open, close, depth);
    OpenAfterConcat([OpenOf(v)], inner, open, close, depth);
    OneBracket(OpenOf(v), open, close, depth);
    OneBracket(CloseOf(v), open, close, d);
  }

  lemma OneBracket(c: char, open: char, close: char, depth: nat)
    requires open != close
    ensures OpenAfter([c], open, close, depth)
         == if c == open then Some(depth + 1)
            else if c != close then Some(depth)
            else if depth == 0 then None else Some(depth - 1)
  {
    assert [c][1..] == "";
    assert forall d: nat :: OpenAfter("", open, close, d) == Some(d);
  }

  lemma BalancesAcrossComma(a: string, b: string, open: char, close: char, depth: nat)
    requires Brackets(open, close)
    requires OpenAfter(a, open, close, depth) == Some(depth) && OpenAfter(b, open, close, depth) == Some(depth)
    ensures OpenAfter(a + "," + b, open, close, depth) == Some(depth)
  {
    OpenAfterConcat(a + ",", b, open, close, depth);
    OpenAfterConcat(a, ",", open, close, depth);
    OneBracket(',', open, close, depth);
  }

  lemma {:induction false} ItemsBalance(items: seq<Json>, open: char, close: char, depth: nat)
    requires Brackets(open, close) && forall i :: 0 <= i < |items| ==> IdentifierKeys(items[i])
    requires forall i :: 0 <= i < |items| ==> FreeOf(items[i], open, close)
    ensures OpenAfter(ItemsText(items), open, close, depth) == Some(depth)
    decreases items, 0
  {
    if items != [] {
      ValueBalances(items[0], open, close, depth);
      if |items| > 1 {
        ItemsBalance(items[1..], open, close, depth);
        BalancesAcrossComma(JsonText(items[0]), ItemsText(items[1..]), open, close, depth);
      }
    }
  }

  lemma {:induction false} MemberBalances(m: Member, open: char, close: char, depth: nat)
    requires Brackets(open, close) && IdentifierMember(m) && MemberFreeOf(m, open, close)
    ensures OpenAfter(MemberText(m), open, close, depth) == Some(depth)
    decreases m, 0
  {
    hide OpenAfter;
    hide QuotedKey;
    hide JsonText;
    KeyHoldsNone(m.key, open, close);
    NoBrackets(QuotedKey(m.key), open, close, depth);
    ValueBalances(m.value, open, close, depth);
    OpenAfterConcat(QuotedKey(m.key), JsonText(m.value), open, close, depth);
  }

  lemma {:induction false} MembersBalance(members: seq<Member>, open: char, close: char, depth: nat)
    requires Brackets(open, close) && forall i :: 0 <= i < |members| ==> IdentifierMember(members[i])
    requires forall i :: 0 <= i < |members| ==> MemberFreeOf(members[i], open, close)
    ensures OpenAfter(MembersText(members), open, close, depth) == Some(depth)
    decreases members, 0
  {
    if members != [] {
      MemberBalances(members[0], open, close, depth);
      if |members| > 1 {
        MembersBalance(members[1..], open, close, depth);
        BalancesAcrossComma(MemberText(members[0]), MembersText(members[1..]), open, close, depth);
      }
    }
  }

  /** A section whose strings hold no bracket of its kind is printed whole, and one byte
      more. */
  lemma ContainerPrintedWhole(v: Json, rest: string)
    requires (v.Arr? || v.Obj?) && rest != "" && IdentifierKeys(v) && FreeOf(v, OpenOf(v), CloseOf(v))
    ensures SectionEnd(JsonText(v) + rest) == |JsonText(v)| + 1
  {
    if v.Arr? {
      ItemsBalance(v.items, '[', ']', 0);
    } else {
      MembersBalance(v.members, '{', '}', 0);
    }
    ContainerPrinted(v, rest);
  }

  // ----- Strings, numbers and literals -----

  lemma {:induction false} ScanStringIs(v: string, rest: string)
    ensures ScanString(EscapeString(v) + ("\"" + rest)) == |EscapeString(v)|
  {
    if v == "" {
      assert EscapeString(v) + ("\"" + rest) == "\"" + rest;
    } else {
      var behind := EscapeString(v[1..]) + ("\"" + rest);
      ScanStringIs(v[1..], rest);
      Assoc(EscapeChar(v[0]), EscapeString(v[1..]), "\"" + rest);
      EscapedByteScanned(v[0], behind);
    }
  }

  lemma EscapedByteScanned(c: char, behind: string)
    ensures ScanString(EscapeChar(c) + behind) == |EscapeChar(c)| + ScanString(behind)
  {
    var e := EscapeChar(c);
    var s := e + behind;
    if |e| == 1 {
      assert s[1..] == behind;
    } else if |e| == 2 {
      assert s[2..] == behind;
    } else {
      assert e[2..] == ['0', '0', e[4], e[5]];
      assert s[2..] == ['0', '0', e[4], e[5]] + behind;
      FourBytes('0', '0', e[4], e[5], behind);
    }
  }

  lemma FourBytes(a: char, b: char, c: char, d: char, behind: string)
    requires forall x :: x in [a, b, c, d] ==> x != '\"' && x != '\\'
    ensures ScanString([a, b, c, d] + behind) == 4 + ScanString(behind)
  {
    OneByte(a, [b, c, d] + behind);
    OneByte(b, [c, d] + behind);
    OneByte(c, [d] + behind);
    OneByte(d, behind);
    assert [a] + ([b, c, d] + behind) == [a, b, c, d] + behind;
    assert [b] + ([c, d] + behind) == [b, c, d] + behind;
    assert [c] + ([d] + behind) == [c, d] + behind;
    assert a in [a, b, c, d] && b in [a, b, c, d] && c in [a, b, c, d] && d in [a, b, c, d];
  }

  lemma OneByte(c: char, behind: string)
    ensures c != '\"' && c != '\\' ==> ScanString([c] + behind) == 1 + ScanString(behind)
  {
    assert ([c] + behind)[1..] == behind;
  }

  lemma {:induction false} ScanWordIs(word: string, rest: string)
    requires (forall i :: 0 <= i < |word| ==> IsWordByte(word[i])) && (rest == "" || !IsWordByte(rest[0]))
    ensures ScanWord(word + rest) == |word|
  {
    if word == "" {
      assert word + rest == rest;
    } else {
      assert (word + rest)[1..] == word[1..] + rest;
      ScanWordIs(word[1..], rest);
    }
  }

  lemma DigitsAreWord(n: int)
    ensures forall i :: 0 <= i < |Signed(n)| ==> IsWordByte(Signed(n)[i])
  {
    assert AllDigits(Decimal(if n < 0 then -n else n));
  }

  lemma StringPrinted(s: string, rest: string)
    ensures SectionEnd(QuotedString(s) + rest) == |QuotedString(s)|
  {
    hide Scan;
    hide ScanString;
    hide EscapeString;
    var behind := EscapeString(s) + ("\"" + rest);
    Assoc4("\"", EscapeString(s), "\"", rest);
    HeadTail('\"', behind);
    ScanStringIs(s, rest);
    assert QuotedString(s) + rest == ['\"'] + behind;
  }

  /** A string, number or literal is printed exactly. */
  lemma ScalarPrinted(v: Json, rest: string)
    requires !v.Arr? && !v.Obj? && Ends(rest)
    ensures SectionEnd(JsonText(v) + rest) == |JsonText(v)|
  {
    hide Scan;
    hide ScanString;
    hide ScanWord;
    hide EscapeString;
    hide Signed;
    var pos := JsonText(v) + rest;
    assert pos[0] == JsonText(v)[0];
    match v {
      case Str(s) =>
        StringPrinted(s, rest);
      case Int(n) =>
        DigitsAreWord(n);
        ScanWordIs(JsonText(v), rest);
      case Real(m, e) =>
        DigitsAreWord(m);
        DigitsAreWord(e);
        ScanWordIs(JsonText(v), rest);
      case _ => ScanWordIs(JsonText(v), rest);
    }
  }

  // ----- A section of a reply -----

  /** What print_json_section writes, None where the key is not found. */
  function Printed(json: string, key: string): Option<string> {
    match FindKey(json, key)
    case None => None
    case Some(i) =>
      match StrChr(json[i..], ':')
      case None => None
      case Some(k) =>
        var pos := SkipSpace(json[i..][k + 1..]);
        Some(pos[..Min(SectionEnd(pos), |pos|)])
  }

  lemma ValueStarts(v: Json, rest: string)
    ensures SkipSpace(JsonText(v) + rest) == JsonText(v) + rest
  {
    assert (JsonText(v) + rest)[0] == JsonText(v)[0];
    assert !IsSpace(JsonText(v)[0]);
  }

  /** Of a reply that has the key, the first value under it is printed: exactly, if it
      is no container; and with the one byte behind it, if it is one whose strings hold
      no bracket of its kind. */
  lemma SectionPrinted(t: Json, key: string)
    requires IdentifierKeys(t) && IdentifierBytes(key) && |key| <= SEARCH_MAX - 3 && Lookup(t, key).Some?
    ensures var v := Lookup(t, key).value;
            && Printed(JsonText(t), key).Some?
            && (!v.Arr? && !v.Obj? ==> Printed(JsonText(t), key) == Some(JsonText(v)))
            && ((v.Arr? || v.Obj?) && FreeOf(v, OpenOf(v), CloseOf(v)) ==>
                  exists c :: Printed(JsonText(t), key) == Some(JsonText(v) + [c]) && Ends([c]))
  {
    hide StrStr;
    hide StrChr;
    hide PatternOf;
    hide Pattern;
    hide Places;
    hide JsonText;
    hide QuotedKey;
    hide Stands;
    hide SectionEnd;
    hide Lookup;
    hide FreeOf;
    var s := JsonText(t);
    SearchFindsNext(t, KeyOf(key), 0);
    NextIsLookup(t, key, 0, 0);
    PatternIsWhole(key);
    assert s[0..] == s;
    var p := Next(Places(t, 0), KeyOf(key), 0).value;
    var v := p.member.value;
    PlaceIsIdentifier(s, p);
    var tail := StandingText(s, p);
    var pos := JsonText(v) + tail;
    FirstColon(key, pos);
    ValueStarts(v, tail);
    if v.Arr? || v.Obj? {
      if FreeOf(v, OpenOf(v), CloseOf(v)) {
        ContainerPrintedWhole(v, tail);
        assert pos[..|JsonText(v)| + 1] == JsonText(v) + [tail[0]];
        assert Ends([tail[0]]);
      }
    } else {
      ScalarPrinted(v, tail);
      assert pos[..|JsonText(v)|] == JsonText(v);
    }
  }

  /** A closing bracket in a string ends the section early. */
  lemma BracketInStringCuts(rest: string)
    ensures var v := Arr([Str("]")]);
            SectionEnd(JsonText(v) + rest) < |JsonText(v)|
  {
    var v := Arr([Str("]")]);
    assert EscapeString("]") == "]" by { assert "]"[1..] == "" && EscapeString("") == ""; }
    assert JsonText(Str("]")) == "\"]\"" && ItemsText([Str("]")]) == JsonText(Str("]"));
    assert JsonText(v) == "[\"]\"]";
    var pos := "[\"]\"]" + rest;
    assert pos[1..] == "\"]\"]" + rest && pos[1..][1..] == "]\"]" + rest && pos[1..][1..][1..] == "\"]" + rest;
    assert Scan(pos[1..][1..][1..], '[', ']', 0) == 0;
    assert Scan(pos[1..][1..], '[', ']', 1) == 1;
    assert Scan(pos[1..], '[', ']', 1) == 2;
  }
}
