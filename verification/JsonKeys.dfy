/** Identifier keys, what a key's value is for a reader that knows the structure, and
    why a quoted key cannot be matched inside a string value. */
module JsonKeys {
  import opened Sequences
  import opened Text
  import opened JsonTree

  predicate IsIdentifierByte(c: char) {
    IsDigit(c) || 'a' <= c <= 'z' || 'A' <= c <= 'Z' || c == '_'
  }

  predicate IdentifierBytes(k: string) {
    forall i :: 0 <= i < |k| ==> IsIdentifierByte(k[i])
  }

  predicate Identifier(k: string) {
    k != "" && IdentifierBytes(k)
  }

  predicate IdentifierKeys(t: Json)
    decreases t
  {
    match t
    case Arr(items) => forall i :: 0 <= i < |items| ==> IdentifierKeys(items[i])
    case Obj(members) => forall i :: 0 <= i < |members| ==> IdentifierMember(members[i])
    case _ => true
  }

  predicate IdentifierMember(m: Member)
    decreases m
  {
    Identifier(m.key) && IdentifierKeys(m.value)
  }

  /** The value under the first key, in text order, that equals `key`: what a reader
      that knows the structure would return. */
  function Lookup(t: Json, key: string): Option<Json>
    decreases t
  {
    match t
    case Arr(items) => LookupItems(items, key)
    case Obj(members) => LookupMembers(members, key)
    case _ => None
  }

  function LookupItems(items: seq<Json>, key: string): Option<Json>
    decreases items
  {
    if items == [] then None
    else match Lookup(items[0], key)
      case Some(v) => Some(v)
      case None => LookupItems(items[1..], key)
  }

  function LookupMember(m: Member, key: string): Option<Json>
    decreases m
  {
    if m.key == key then Some(m.value) else Lookup(m.value, key)
  }

  function LookupMembers(members: seq<Member>, key: string): Option<Json>
    decreases members
  {
    if members == [] then None
    else match LookupMember(members[0], key)
      case Some(v) => Some(v)
      case None => LookupMembers(members[1..], key)
  }

  // ----- Where the pattern can match -----

  /** No match of `p` starts in the first `n` bytes of `s`. */
  predicate NoMatch(s: string, p: string, n: nat) {
    forall j: nat :: j < n ==> !MatchesAt(s, p, j)
  }

  lemma NoMatchConcat(a: string, b: string, p: string, n: nat)
    requires NoMatch(a + b, p, |a|) && NoMatch(b, p, n)
    ensures NoMatch(a + b, p, |a| + n)
  {
    forall j: nat | j < |a| + n
      ensures !MatchesAt(a + b, p, j)
    {
      if j >= |a| {
        assert !MatchesAt(b, p, j - |a|);
        if j <= |a + b| {
          assert (a + b)[j..] == b[j - |a|..];
        }
      }
    }
  }

  /** A pattern that starts with a quote does not match at another byte. */
  lemma NoMatchUnquoted(a: string, b: string, p: string)
    requires p != "" && p[0] == '\"' && '\"' !in a
    ensures NoMatch(a + b, p, |a|)
  {
    forall j: nat | j < |a|
      ensures !MatchesAt(a + b, p, j)
    {
      assert (a + b)[j..][0] == a[j];
    }
  }

  lemma MatchTail(c: char, s: string, p: string)
    requires p != "" && p <= [c] + s
    ensures p[0] == c && p[1..] <= s
  {
    assert ([c] + s)[1..] == s;
  }

  /** If an identifier and a quote follow inside a string value, the value ends
      there: escaped quotes are preceded by a backslash. */
  lemma {:induction false} KeyInsideString(k: string, v: string, after: string)
    requires IdentifierBytes(k)
    requires k + "\":" <= EscapeString(v) + ("\"" + after)
    ensures after != "" && after[0] == ':'
  {
    var p := k + "\":";
    var s := EscapeString(v) + ("\"" + after);
    assert p[0] == if k == "" then '\"' else k[0];
    if v == "" {
      assert s == ['\"'] + after;
      MatchTail('\"', after, p);
      assert k == "";
      assert p[1..] == ":";
    } else {
      var e := EscapeChar(v[0]);
      var rest := EscapeString(v[1..]) + ("\"" + after);
      Assoc(e, EscapeString(v[1..]), "\"" + after);
      assert s[0] == e[0] == p[0];
      assert e[0] != '\"';
      assert k != "" && e[0] != '\\';
      assert e == [v[0]];
      MatchTail(v[0], rest, p);
      assert p[1..] == k[1..] + "\":";
      KeyInsideString(k[1..], v[1..], after);
    }
  }

  /** No match starts at a byte of a string value's content or at its closing
      quote, unless a colon follows the value, which the grammar excludes. */
  lemma {:induction false} NoMatchInString(k: string, v: string, after: string)
    requires IdentifierBytes(k) && (after == "" || (after[0] != ':' && after[0] != '\"' && !IsIdentifierByte(after[0])))
    ensures NoMatch(EscapeString(v) + ("\"" + after), "\"" + k + "\":", |EscapeString(v)| + 1)
  {
    var p := "\"" + k + "\":";
    var s := EscapeString(v) + ("\"" + after);
    if v == "" {
      assert p[1] == (if k == "" then '\"' else k[0]) && s[0..] == s;
      assert |s| > 1 ==> s[1] == after[0];
    } else {
      var e := EscapeChar(v[0]);
      var rest := EscapeString(v[1..]) + ("\"" + after);
      Assoc(e, EscapeString(v[1..]), "\"" + after);
      NoMatchInString(k, v[1..], after);
      if v[0] == '\"' {
        NoMatchEscapedQuote(k, v[1..], after);
      } else {
        assert '\"' !in e;
        NoMatchUnquoted(e, rest, p);
      }
      NoMatchConcat(e, rest, p, |EscapeString(v[1..])| + 1);
    }
  }

  lemma NoMatchEscapedQuote(k: string, v: string, after: string)
    requires IdentifierBytes(k) && (after == "" || after[0] != ':')
    ensures NoMatch("\\\"" + (EscapeString(v) + ("\"" + after)), "\"" + k + "\":", 2)
  {
    var p := "\"" + k + "\":";
    var rest := EscapeString(v) + ("\"" + after);
    var s := "\\\"" + rest;
    assert s[0..][0] == '\\';
    if MatchesAt(s, p, 1) {
      assert s[1..] == ['\"'] + rest;
      MatchTail('\"', rest, p);
      assert p[1..] == k + "\":";
      KeyInsideString(k, v, after);
    }
  }

  lemma {:induction false} IdentifierUnescaped(k: string)
    requires IdentifierBytes(k)
    ensures EscapeKey(k) == k
  {
    if k != "" {
      IdentifierUnescaped(k[1..]);
      Split(k);
    }
  }

  lemma NoMatchAtOpeningQuote(k: string, v: string, rest: string)
    requires IdentifierBytes(k) && Ends(rest)
    ensures NoMatch("\"" + (EscapeString(v) + ("\"" + rest)), "\"" + k + "\":", 1)
  {
    var p := "\"" + k + "\":";
    var inner := EscapeString(v) + ("\"" + rest);
    if MatchesAt("\"" + inner, p, 0) {
      assert ("\"" + inner)[0..] == ['\"'] + inner;
      MatchTail('\"', inner, p);
      assert p[1..] == k + "\":";
      KeyInsideString(k, v, rest);
    }
  }

  lemma KeysDiffer(k: string, rest: string, key: string, p: string, s: string)
    requires IdentifierBytes(key) && Identifier(k) && k != key
    requires p == "\"" + key + "\":" && s == "\"" + k + "\":" + rest
    ensures !(p <= s)
  {
    if |k| == |key| {
      var i :| 0 <= i < |k| && k[i] != key[i];
      assert p[i + 1] == key[i] && s[i + 1] == k[i];
    } else {
      var n := if |k| < |key| then |k| else |key|;
      assert p[n + 1] != s[n + 1];
    }
  }

  lemma SignedUnquoted(n: int)
    ensures '\"' !in Signed(n)
  {
    assert '\"' !in Decimal(if n < 0 then -n else n);
  }
}
