/** The lexical grammar of RFC 8259: white space and structural characters
    (section 2), literal names (section 3), numbers (section 6), strings
    (section 7). */
module JsonLexer {
  import opened Sequences
  import opened Text
  import opened JsonTree

  datatype Token =
    | Punct(c: char)
    | Chars(s: string)
    | Scalar(t: Json)

  predicate IsWhite(c: char) {
    c == ' ' || c == '\t' || c == '\n' || c == '\r'
  }

  function SkipWhite(s: string): (r: string)
    ensures |r| <= |s|
  {
    if s != "" && IsWhite(s[0]) then SkipWhite(s[1..]) else s
  }

  predicate StartsWith(s: string, c: char) {
    s != "" && s[0] == c
  }

  function HexValue(c: char): Option<nat> {
    if IsDigit(c) then Some(DigitValue(c))
    else if 'a' <= c <= 'f' then Some(c as int - 'a' as int + 10)
    else if 'A' <= c <= 'F' then Some(c as int - 'A' as int + 10)
    else None
  }

  /** The code of four hexadecimal digits. */
  function HexCode(s: string): Option<nat>
    requires |s| == 4
  {
    match (HexValue(s[0]), HexValue(s[1]), HexValue(s[2]), HexValue(s[3]))
    case (Some(a), Some(b), Some(c), Some(d)) => Some(((a * 16 + b) * 16 + c) * 16 + d)
    case _ => None
  }

  /** The escape after a backslash. A surrogate code is refused. */
  function ParseEscape(s: string): (r: Option<(char, string)>)
    ensures r.Some? ==> |r.value.1| < |s|
  {
    if s == "" then None
    else match s[0]
      case '\"' => Some(('\"', s[1..]))
      case '\\' => Some(('\\', s[1..]))
      case '/' => Some(('/', s[1..]))
      case 'b' => Some((8 as char, s[1..]))
      case 'f' => Some((12 as char, s[1..]))
      case 'n' => Some(('\n', s[1..]))
      case 'r' => Some(('\r', s[1..]))
      case 't' => Some(('\t', s[1..]))
      case 'u' =>
        if |s| < 5 then None
        else (match HexCode(s[1..5])
          case Some(n) => if n < 0xD800 || 0xE000 <= n < 0x1_0000 then Some((n as char, s[5..])) else None
          case None => None)
      case _ => None
  }

  /** The rest of a string after its opening quote, through the closing one. */
  function ParseChars(s: string): (r: Option<(string, string)>)
    ensures r.Some? ==> |r.value.1| < |s|
    decreases |s|
  {
    if s == "" || s[0] < ' ' then None
    else if s[0] == '\"' then Some(("", s[1..]))
    else if s[0] == '\\' then
      match ParseEscape(s[1..])
      case None => None
      case Some((c, rest)) => Cons(c, ParseChars(rest))
    else Cons(s[0], ParseChars(s[1..]))
  }

  function Cons(c: char, r: Option<(string, string)>): Option<(string, string)> {
    match r
    case Some((v, rest)) => Some(([c] + v, rest))
    case None => None
  }

  /** 1*DIGIT: the numeral and what follows it. */
  function ParseDigits(s: string): (r: Option<(string, string)>)
    ensures r.Some? ==> r.value.0 != "" && AllDigits(r.value.0) && |r.value.1| < |s|
  {
    var k := DigitRun(s);
    if k == 0 then None else Some((s[..k], s[k..]))
  }

  function SignedValue(negative: bool, digits: string): int
    requires AllDigits(digits)
  {
    if negative then -(DigitsValue(digits) as int) else DigitsValue(digits)
  }

  /** [minus / plus] 1*DIGIT, the exponent after its letter. */
  function ParseExponent(s: string): (r: Option<(int, string)>)
    ensures r.Some? ==> |r.value.1| < |s|
  {
    match ParseDigits(if StartsWith(s, '-') || StartsWith(s, '+') then s[1..] else s)
    case None => None
    case Some((d, rest)) => Some((SignedValue(StartsWith(s, '-'), d), rest))
  }

  /** [minus] int [frac] [exp], int = zero / digit1-9 *DIGIT. */
  function ParseNumber(s: string): (r: Option<(Json, string)>)
    ensures r.Some? ==> |r.value.1| < |s|
  {
    match ParseDigits(if StartsWith(s, '-') then s[1..] else s)
    case None => None
    case Some((d, rest)) =>
      if d[0] == '0' && |d| > 1 then None
      else if !StartsWith(rest, '.') then ParseScale(SignedValue(StartsWith(s, '-'), d), 0, rest, false)
      else match ParseDigits(rest[1..])
        case None => None
        case Some((f, end)) => ParseScale(SignedValue(StartsWith(s, '-'), d + f), |f|, end, true)
  }

  /** The optional exponent of a number with `places` digits after the point. */
  function ParseScale(m: int, places: nat, s: string, fraction: bool): (r: Option<(Json, string)>)
    ensures r.Some? ==> |r.value.1| <= |s|
  {
    if StartsWith(s, 'e') || StartsWith(s, 'E') then
      match ParseExponent(s[1..])
      case None => None
      case Some((x, rest)) => Some((Real(m, x - places), rest))
    else if fraction then Some((Real(m, 0 - places), s))
    else Some((Int(m), s))
  }

  function Take(word: string, t: Json, s: string): (r: Option<(Token, string)>)
    requires word != ""
    ensures r.Some? ==> |r.value.1| < |s|
  {
    if word <= s then Some((Scalar(t), s[|word|..])) else None
  }

  /** The token `s` starts with. */
  function NextToken(s: string): (r: Option<(Token, string)>)
    requires s != ""
    ensures r.Some? ==> |r.value.1| < |s|
  {
    match s[0]
    case '{' => Some((Punct('{'), s[1..]))
    case '}' => Some((Punct('}'), s[1..]))
    case '[' => Some((Punct('['), s[1..]))
    case ']' => Some((Punct(']'), s[1..]))
    case ',' => Some((Punct(','), s[1..]))
    case ':' => Some((Punct(':'), s[1..]))
    case '\"' => (match ParseChars(s[1..])
      case Some((v, rest)) => Some((Chars(v), rest))
      case None => None)
    case 't' => Take("true", Bool(true), s)
    case 'f' => Take("false", Bool(false), s)
    case 'n' => Take("null", Null, s)
    case _ => (match ParseNumber(s)
      case Some((t, rest)) => Some((Scalar(t), rest))
      case None => None)
  }

  function Prepend(ts: seq<Token>, r: Option<seq<Token>>): Option<seq<Token>> {
    match r
    case Some(more) => Some(ts + more)
    case None => None
  }

  /** All the tokens of a text, or None where it is not lexically JSON. */
  function Lex(s: string): Option<seq<Token>>
    decreases |s|
  {
    var t := SkipWhite(s);
    if t == "" then Some([])
    else match NextToken(t)
      case Some((token, rest)) => Prepend([token], Lex(rest))
      case None => None
  }

  /** One escaped byte of a string value comes back. */
  lemma EscapedCharParses(c: char, rest: string)
    ensures ParseChars(EscapeChar(c) + rest) == Cons(c, ParseChars(rest))
  {
    var e := EscapeChar(c);
    var s := e + rest;
    if EscapeCommon(c) == [c] && c < ' ' {
      assert s[1..] == e[1..] + rest;
      assert s[1..][1..5] == e[2..6];
      assert HexCode(e[2..6]) == Some(c as int);
      assert s[1..][5..] == rest;
    } else if e == [c] {
      assert s[1..] == rest;
    } else {
      assert s[1..][1..] == rest;
    }
  }

  lemma {:induction false} EscapedStringParses(v: string, rest: string)
    ensures ParseChars(EscapeString(v) + "\"" + rest) == Some((v, rest))
  {
    var s := EscapeString(v) + "\"" + rest;
    if v == "" {
      assert s[1..] == rest;
    } else {
      var tail := EscapeString(v[1..]) + "\"" + rest;
      assert s == EscapeChar(v[0]) + tail;
      EscapedCharParses(v[0], tail);
      EscapedStringParses(v[1..], rest);
      assert [v[0]] + v[1..] == v;
    }
  }

  /** A key comes back exactly when all its bytes are printable in a key; the
      parser refuses any other. */
  lemma {:induction false} EscapedKeyParses(k: string, rest: string)
    ensures ParseChars(EscapeKey(k) + "\"" + rest) == if PrintableKey(k) then Some((k, rest)) else None
  {
    var s := EscapeKey(k) + "\"" + rest;
    if k == "" {
      assert s[1..] == rest;
    } else {
      var tail := EscapeKey(k[1..]) + "\"" + rest;
      assert s == EscapeCommon(k[0]) + tail;
      EscapedKeyParses(k[1..], rest);
      if PrintableInKey(k[0]) {
        assert EscapeChar(k[0]) == EscapeCommon(k[0]);
        EscapedCharParses(k[0], tail);
        assert [k[0]] + k[1..] == k;
      } else {
        assert s[0] == k[0];
      }
    }
  }

  lemma DecimalParses(n: nat, rest: string)
    requires rest == "" || !IsDigit(rest[0])
    ensures ParseDigits(Decimal(n) + rest) == Some((Decimal(n), rest))
    ensures IsDigit((Decimal(n) + rest)[0])
  {
    DigitRunIs(Decimal(n), rest);
    assert (Decimal(n) + rest)[..|Decimal(n)|] == Decimal(n);
    assert (Decimal(n) + rest)[|Decimal(n)|..] == rest;
  }

  lemma ExponentParses(n: int, rest: string)
    requires rest == "" || !IsDigit(rest[0])
    ensures ParseExponent(Signed(n) + rest) == Some((n, rest))
  {
    hide ParseDigits;
    hide Decimal;
    hide DigitsValue;
    var s := Signed(n) + rest;
    DecimalParses(if n < 0 then -n else n, rest);
    DecimalValue(if n < 0 then -n else n);
    if n < 0 {
      assert s[0] == '-' && s[1..] == Decimal(-n) + rest;
    }
  }

  lemma SignedParses(n: int, rest: string)
    requires rest == "" || (!IsDigit(rest[0]) && rest[0] != '.')
    ensures ParseNumber(Signed(n) + rest) == ParseScale(n, 0, rest, false)
  {
    hide ParseDigits;
    hide Decimal;
    hide DigitsValue;
    hide ParseScale;
    var s := Signed(n) + rest;
    DecimalParses(if n < 0 then -n else n, rest);
    DecimalValue(if n < 0 then -n else n);
    if n < 0 {
      assert s[0] == '-' && s[1..] == Decimal(-n) + rest;
    }
  }

  lemma LexStep(s: string, token: Token, rest: string)
    requires s != "" && !IsWhite(s[0]) && NextToken(s) == Some((token, rest))
    ensures Lex(s) == Prepend([token], Lex(rest))
  {
    assert SkipWhite(s) == s;
  }

  lemma LexPunct(c: char, rest: string)
    requires c in {'{', '}', '[', ']', ',', ':'}
    ensures Lex([c] + rest) == Prepend([Punct(c)], Lex(rest))
  {
    hide Lex;
    HeadTail(c, rest);
    LexStep([c] + rest, Punct(c), rest);
  }

  lemma LexString(v: string, rest: string)
    ensures Lex(QuotedString(v) + rest) == Prepend([Chars(v)], Lex(rest))
  {
    hide Lex;
    Assoc4("\"", EscapeString(v), "\"", rest);
    HeadTail('\"', EscapeString(v) + "\"" + rest);
    EscapedStringParses(v, rest);
    LexStep(QuotedString(v) + rest, Chars(v), rest);
  }

  lemma LexRefuses(s: string)
    requires s != "" && !IsWhite(s[0]) && NextToken(s).None?
    ensures Lex(s) == None
  {
    assert SkipWhite(s) == s;
  }

  lemma LexKey(k: string, rest: string)
    ensures Lex(QuotedKey(k) + rest)
         == if PrintableKey(k) then Prepend([Chars(k), Punct(':')], Lex(rest)) else None
  {
    hide Lex;
    var s := QuotedKey(k) + rest;
    var colon := [':'] + rest;
    assert s[0] == '\"' && s[1..] == EscapeKey(k) + "\"" + colon;
    EscapedKeyParses(k, colon);
    if PrintableKey(k) {
      LexStep(s, Chars(k), colon);
      LexPunct(':', rest);
      PrependTwice([Chars(k)], [Punct(':')], Lex(rest));
      assert [Chars(k)] + [Punct(':')] == [Chars(k), Punct(':')];
    } else {
      LexRefuses(s);
    }
  }

  lemma PrependTwice(a: seq<Token>, b: seq<Token>, r: Option<seq<Token>>)
    ensures Prepend(a, Prepend(b, r)) == Prepend(a + b, r)
  {
    if r.Some? {
      assert a + (b + r.value) == a + b + r.value;
    }
  }

  lemma LexWord(word: string, rest: string)
    requires word in {"true", "false", "null"}
    ensures Lex(word + rest)
         == Prepend([Scalar(if word == "null" then Null else Bool(word == "true"))], Lex(rest))
  {
    assert word <= word + rest && (word + rest)[|word|..] == rest;
    LexStep(word + rest, Scalar(if word == "null" then Null else Bool(word == "true")), rest);
  }

  lemma LexInt(n: int, rest: string)
    requires Ends(rest)
    ensures Lex(Signed(n) + rest) == Prepend([Scalar(Int(n))], Lex(rest))
  {
    hide Lex;
    SignedParses(n, rest);
    assert (Signed(n) + rest)[0] == Signed(n)[0];
    LexStep(Signed(n) + rest, Scalar(Int(n)), rest);
  }

  lemma ScaledParses(m: int, e: int, rest: string)
    requires Ends(rest)
    ensures ParseScale(m, 0, "e" + Signed(e) + rest, false) == Some((Real(m, e), rest))
  {
    var tail := "e" + Signed(e) + rest;
    assert tail[0] == 'e' && tail[1..] == Signed(e) + rest;
    ExponentParses(e, rest);
  }

  lemma LexReal(m: int, e: int, rest: string)
    requires Ends(rest)
    ensures Lex(Signed(m) + ("e" + Signed(e) + rest)) == Prepend([Scalar(Real(m, e))], Lex(rest))
  {
    hide Lex;
    hide ParseScale;
    var tail := "e" + Signed(e) + rest;
    ScaledParses(m, e, rest);
    assert tail[0] == 'e';
    SignedParses(m, tail);
    assert (Signed(m) + tail)[0] == Signed(m)[0];
    LexStep(Signed(m) + tail, Scalar(Real(m, e)), rest);
  }
}
