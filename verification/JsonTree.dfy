/** JSON values and the compact text of a value, with the escaping json.c applies. */
module JsonTree {
  import opened Text

  /** RFC 8259 values. `Real` is a number written with a fraction or an exponent,
      mantissa * 10^exponent; no builder call modelled here writes one. */
  datatype Json =
    | Null
    | Bool(b: bool)
    | Int(n: int)
    | Real(mantissa: int, exponent: int)
    | Str(s: string)
    | Arr(items: seq<Json>)
    | Obj(members: seq<Member>)

  datatype Member = Member(key: string, value: Json)

  function HexDigit(d: nat): char
    requires d < 16
  {
    if d < 10 then Digit(d) else (d - 10 + 'a' as int) as char
  }

  /** The escapes keys and strings share. */
  function EscapeCommon(c: char): string {
    match c
    case '\"' => "\\\""
    case '\\' => "\\\\"
    case '\n' => "\\n"
    case '\r' => "\\r"
    case '\t' => "\\t"
    case _ => [c]
  }

  /** json_string also escapes the remaining control bytes; json_key does not. */
  function EscapeChar(c: char): string {
    if EscapeCommon(c) == [c] && c < ' '
    then "\\u00" + [HexDigit(c as int / 16), HexDigit(c as int % 16)]
    else EscapeCommon(c)
  }

  /** Which bytes are written as themselves, in a string value and in a key. */
  lemma WrittenAsItself(c: char)
    ensures EscapeChar(c) == [c] <==> c >= ' ' && c != '\"' && c != '\\'
    ensures EscapeCommon(c) == [c] <==> c != '\"' && c != '\\' && c != '\n' && c != '\r' && c != '\t'
  {
  }

  /** And how each of the others is written: five bytes by a letter, in keys as in
      values, the remaining control bytes of a value by two hexadecimal digits. */
  lemma EscapesAre(c: char)
    ensures EscapeChar('\"') == EscapeCommon('\"') == "\\\"" && EscapeChar('\\') == EscapeCommon('\\') == "\\\\"
    ensures EscapeChar('\n') == EscapeCommon('\n') == "\\n" && EscapeChar('\r') == EscapeCommon('\r') == "\\r"
    ensures EscapeChar('\t') == EscapeCommon('\t') == "\\t"
    ensures c < ' ' && c != '\n' && c != '\r' && c != '\t' ==>
              EscapeChar(c)
              == "\\u00" + ["0123456789abcdef"[c as int / 16], "0123456789abcdef"[c as int % 16]]
  {
    HexDigitIs(c as int / 16 % 16);
    HexDigitIs(c as int % 16);
  }

  lemma HexDigitIs(d: nat)
    requires d < 16
    ensures HexDigit(d) == "0123456789abcdef"[d]
  {
  }

  function EscapeKey(k: string): string {
    if k == "" then "" else EscapeCommon(k[0]) + EscapeKey(k[1..])
  }

  function EscapeString(s: string): string {
    if s == "" then "" else EscapeChar(s[0]) + EscapeString(s[1..])
  }

  /** A key byte that json_key writes in a form RFC 8259 section 7 allows. */
  predicate PrintableInKey(c: char) {
    c >= ' ' || c == '\n' || c == '\r' || c == '\t'
  }

  predicate PrintableKey(k: string) {
    forall i :: 0 <= i < |k| ==> PrintableInKey(k[i])
  }

  predicate PrintableKeys(t: Json)
    decreases t
  {
    match t
    case Arr(items) => forall i :: 0 <= i < |items| ==> PrintableKeys(items[i])
    case Obj(members) => forall i :: 0 <= i < |members| ==> PrintableMember(members[i])
    case _ => true
  }

  predicate PrintableMember(m: Member)
    decreases m
  {
    PrintableKey(m.key) && PrintableKeys(m.value)
  }

  function QuotedKey(k: string): string {
    "\"" + EscapeKey(k) + "\":"
  }

  function QuotedString(s: string): string {
    "\"" + EscapeString(s) + "\""
  }

  function Literal(b: bool): string {
    if b then "true" else "false"
  }

  /** The text of a value: no white space, members and items in order. */
  function JsonText(t: Json): (text: string)
    decreases t
  {
    match t
    case Null => "null"
    case Bool(b) => Literal(b)
    case Int(n) => Signed(n)
    case Real(m, e) => Signed(m) + "e" + Signed(e)
    case Str(s) => QuotedString(s)
    case Arr(items) => "[" + ItemsText(items) + "]"
    case Obj(members) => "{" + MembersText(members) + "}"
  }

  function ItemsText(items: seq<Json>): string
    decreases items
  {
    if items == [] then ""
    else if |items| == 1 then JsonText(items[0])
    else JsonText(items[0]) + "," + ItemsText(items[1..])
  }

  function MemberText(m: Member): string
    decreases m
  {
    QuotedKey(m.key) + JsonText(m.value)
  }

  function MembersText(members: seq<Member>): string
    decreases members
  {
    if members == [] then ""
    else if |members| == 1 then MemberText(members[0])
    else MemberText(members[0]) + "," + MembersText(members[1..])
  }

  /** What may follow a value in the builder's output. */
  predicate Ends(rest: string) {
    rest == "" || rest[0] == ',' || rest[0] == ']' || rest[0] == '}'
  }

  lemma {:induction false} ItemsTextAppend(items: seq<Json>, t: Json)
    ensures ItemsText(items + [t]) == ItemsText(items) + (if items == [] then "" else ",") + JsonText(t)
  {
    if items == [] {
      assert items + [t] == [t];
    } else {
      assert (items + [t])[1..] == items[1..] + [t];
      ItemsTextAppend(items[1..], t);
    }
  }

  lemma {:induction false} MembersTextAppend(members: seq<Member>, m: Member)
    ensures MembersText(members + [m])
         == MembersText(members) + (if members == [] then "" else ",") + MemberText(m)
  {
    if members == [] {
      assert members + [m] == [m];
    } else {
      assert (members + [m])[1..] == members[1..] + [m];
      MembersTextAppend(members[1..], m);
    }
  }
}
