/** What the compact text of a value looks like (json.c), said of its bytes. */
module JsonFormat {
  import opened Sequences
  import opened Text
  import opened JsonTree

  /** Text without control bytes, quotes and backslashes is written as it is. */
  lemma {:induction false} AsItself(s: string)
    requires forall i :: 0 <= i < |s| ==> s[i] >= ' ' && s[i] != '\"' && s[i] != '\\'
    ensures EscapeKey(s) == s && EscapeString(s) == s
  {
    if s != "" {
      WrittenAsItself(s[0]);
      AsItself(s[1..]);
    }
  }

  lemma PlainKey(k: string)
    requires forall i :: 0 <= i < |k| ==> k[i] >= ' ' && k[i] != '\"' && k[i] != '\\'
    ensures QuotedKey(k) == "\"" + k + "\":" && QuotedString(k) == "\"" + k + "\""
  {
    AsItself(k);
  }

  /** Scalars, as RFC 8259 spells them. */
  lemma ScalarTexts(n: int, s: string)
    ensures JsonText(Null) == "null" && JsonText(Bool(true)) == "true" && JsonText(Bool(false)) == "false"
    ensures JsonText(Int(n)) == Signed(n) && JsonText(Str(s)) == "\"" + EscapeString(s) + "\""
  {
  }

  /** One more item stands before the closing bracket, behind a comma if it is not the
      first. */
  lemma ArrayText(items: seq<Json>, t: Json)
    ensures JsonText(Arr([])) == "[]"
    ensures var before := JsonText(Arr(items));
            JsonText(Arr(items + [t]))
            == before[..|before| - 1] + (if items == [] then "" else ",") + JsonText(t) + "]"
  {
    ItemsTextAppend(items, t);
    var before := JsonText(Arr(items));
    assert before[..|before| - 1] == "[" + ItemsText(items);
    Assoc4("[", ItemsText(items), if items == [] then "" else ",", JsonText(t));
  }

  /** And one more member before the closing brace. */
  lemma ObjectText(members: seq<Member>, m: Member)
    ensures JsonText(Obj([])) == "{}"
    ensures var before := JsonText(Obj(members));
            JsonText(Obj(members + [m]))
            == before[..|before| - 1] + (if members == [] then "" else ",")
               + ("\"" + EscapeKey(m.key) + "\":" + JsonText(m.value)) + "}"
  {
    MembersTextAppend(members, m);
    var before := JsonText(Obj(members));
    assert before[..|before| - 1] == "{" + MembersText(members);
    Assoc4("{", MembersText(members), if members == [] then "" else ",", MemberText(m));
  }

  // ----- Compactness -----

  /** No string of the value has a space, and no key a space or a control byte. */
  predicate Blankless(t: Json)
    decreases t
  {
    match t
    case Str(s) => ' ' !in s
    case Arr(items) => forall i :: 0 <= i < |items| ==> Blankless(items[i])
    case Obj(members) => forall i :: 0 <= i < |members| ==> BlanklessMember(members[i])
    case _ => true
  }

  predicate BlanklessMember(m: Member)
    decreases m
  {
    (forall i :: 0 <= i < |m.key| ==> m.key[i] > ' ') && Blankless(m.value)
  }

  ghost predicate NoBlanks(text: string) {
    forall i :: 0 <= i < |text| ==> text[i] > ' '
  }

  lemma {:induction false} NoBlanksInString(s: string)
    requires ' ' !in s
    ensures NoBlanks(EscapeString(s))
  {
    if s != "" {
      NoBlanksInString(s[1..]);
      assert s[0] != ' ' && forall i :: 0 <= i < |EscapeChar(s[0])| ==> EscapeChar(s[0])[i] > ' ';
    }
  }

  lemma {:induction false} NoBlanksInKey(k: string)
    requires forall i :: 0 <= i < |k| ==> k[i] > ' '
    ensures NoBlanks(EscapeKey(k))
  {
    if k != "" {
      NoBlanksInKey(k[1..]);
      assert k[0] > ' ' && forall i :: 0 <= i < |EscapeCommon(k[0])| ==> EscapeCommon(k[0])[i] > ' ';
    }
  }

  lemma NoBlanksInSigned(n: int)
    ensures NoBlanks(Signed(n))
  {
    var d := Decimal(if n < 0 then -n else n);
    assert forall i :: 0 <= i < |d| ==> d[i] > ' ';
  }

  /** The text has no white space but that of the value's own strings. */
  lemma {:induction false} TextIsCompact(t: Json)
    requires Blankless(t)
    ensures NoBlanks(JsonText(t))
    decreases t
  {
    hide EscapeString;
    hide Signed;
    hide ItemsText;
    hide MembersText;
    match t {
      case Int(n) => NoBlanksInSigned(n);
      case Real(m, e) => NoBlanksInSigned(m); NoBlanksInSigned(e);
      case Str(s) => NoBlanksInString(s);
      case Arr(items) => ItemsAreCompact(items);
      case Obj(members) => MembersAreCompact(members);
      case _ =>
    }
  }

  lemma {:induction false} ItemsAreCompact(items: seq<Json>)
    requires forall i :: 0 <= i < |items| ==> Blankless(items[i])
    ensures NoBlanks(ItemsText(items))
    decreases items
  {
    if items != [] {
      TextIsCompact(items[0]);
      ItemsAreCompact(items[1..]);
    }
  }

  lemma {:induction false} MembersAreCompact(members: seq<Member>)
    requires forall i :: 0 <= i < |members| ==> BlanklessMember(members[i])
    ensures NoBlanks(MembersText(members))
    decreases members
  {
    if members != [] {
      var m := members[0];
      assert BlanklessMember(m);
      NoBlanksInKey(m.key);
      TextIsCompact(m.value);
      assert NoBlanks(MemberText(m));
      MembersAreCompact(members[1..]);
    }
  }
}
