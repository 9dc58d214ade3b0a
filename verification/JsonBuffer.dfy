/** json.c as written: a builder over a bounded buffer with a sticky error. It
    refines the unlimited writer of JsonWriter call by call. */
module JsonBuffer {
  import opened Sequences
  import opened Text
  import opened JsonTree
  import opened JsonWriter
  import opened JsonParser

  lemma {:induction false} EscapeKeyAppend(k: string, c: char)
    ensures EscapeKey(k + [c]) == EscapeKey(k) + EscapeCommon(c)
  {
    if k == "" {
      assert "" + [c] == [c];
    } else {
      assert (k + [c])[1..] == k[1..] + [c];
      EscapeKeyAppend(k[1..], c);
    }
  }

  lemma {:induction false} EscapeStringAppend(s: string, c: char)
    ensures EscapeString(s + [c]) == EscapeString(s) + EscapeChar(c)
  {
    if s == "" {
      assert "" + [c] == [c];
    } else {
      assert (s + [c])[1..] == s[1..] + [c];
      EscapeStringAppend(s[1..], c);
    }
  }

  /** The integers json_int (int64_t) and json_uint (uint64_t) take. */
  predicate InRange(op: Op) {
    op.PutInt? ==> INT64_MIN <= op.n <= UINT64_MAX
  }

  class JsonBuilder {
    const buf: array<char>
    const size: nat
    var pos: nat
    var depth: int
    var needsComma: bool
    var error: bool

    /** Everything the builder was asked to write. */
    ghost var text: string

    /** The unlimited writer this builder stands for. */
    ghost function State(): Writer
      reads this
    {
      Writer(text, depth, needsComma)
    }

    /** The buffer holds a NUL-terminated prefix of the text, all of it unless
        `error` is set, and `error` is set exactly when the text and its NUL do
        not fit. (With size 0 there is no room even for the NUL.) */
    ghost predicate Valid()
      reads this, buf
    {
      && size <= buf.Length
      && pos <= |text| && pos <= size
      && buf[..pos] == text[..pos]
      && (!error ==> pos == |text|)
      && (size > 0 ==> pos < size && buf[pos] == '\0' && (error <==> |text| >= size))
      && (size == 0 && text != "" ==> error)
    }

    /** json_init. */
    constructor (buffer: array<char>, n: nat)
      requires n <= buffer.Length
      modifies buffer
      ensures Valid() && State() == BLANK && !error
      ensures buf == buffer && size == n
      ensures forall i :: n <= i < buffer.Length ==> buffer[i] == old(buffer[i])
    {
      buf, size := buffer, n;
      pos, depth, needsComma, error := 0, 0, false, false;
      text := "";
      new;
      if n > 0 {
        buf[0] := '\0';
      }
    }

    /** json_write: the only place that stores into the buffer. */
    method Write(s: string)
      requires Valid()
      modifies this`pos, this`error, this`text, buf
      ensures Valid() && text == old(text) + s
      ensures forall i :: size <= i < buf.Length ==> buf[i] == old(buf[i])
    {
      text := text + s;
      if error { return; }
      if pos + |s| >= size {
        error := true;
        return;
      }
      forall i | 0 <= i < |s| {
        buf[pos + i] := s[i];
      }
      pos := pos + |s|;
      buf[pos] := '\0';
      assert buf[..pos] == old(buf[..pos]) + s;
    }

    method CommaIfNeeded()
      requires Valid()
      modifies this`pos, this`error, this`text, this`needsComma, buf
      ensures Valid() && State() == old(State()).Separate()
      ensures forall i :: size <= i < buf.Length ==> buf[i] == old(buf[i])
    {
      assert text + "" == text;
      if needsComma {
        Write(",");
      }
      needsComma := false;
    }

    method StartObject()
      requires Valid()
      modifies this, buf
      ensures Valid() && State() == Step(old(State()), ObjectStart)
      ensures forall i :: size <= i < buf.Length ==> buf[i] == old(buf[i])
    {
      CommaIfNeeded();
      Write("{");
      depth := depth + 1;
      needsComma := false;
    }

    method EndObject()
      requires Valid()
      modifies this, buf
      ensures Valid() && State() == Step(old(State()), ObjectEnd)
      ensures forall i :: size <= i < buf.Length ==> buf[i] == old(buf[i])
    {
      Write("}");
      depth := depth - 1;
      needsComma := true;
    }

    method StartArray()
      requires Valid()
      modifies this, buf
      ensures Valid() && State() == Step(old(State()), ArrayStart)
      ensures forall i :: size <= i < buf.Length ==> buf[i] == old(buf[i])
    {
      CommaIfNeeded();
      Write("[");
      depth := depth + 1;
      needsComma := false;
    }

    method EndArray()
      requires Valid()
      modifies this, buf
      ensures Valid() && State() == Step(old(State()), ArrayEnd)
      ensures forall i :: size <= i < buf.Length ==> buf[i] == old(buf[i])
    {
      Write("]");
      depth := depth - 1;
      needsComma := true;
    }

    /** One byte of a key (the switch of json_key). */
    method WriteKeyByte(c: char)
      requires Valid()
      modifies this`pos, this`error, this`text, buf
      ensures Valid() && text == old(text) + EscapeCommon(c)
      ensures forall i :: size <= i < buf.Length ==> buf[i] == old(buf[i])
    {
      match c
      case '\"' => Write("\\\"");
      case '\\' => Write("\\\\");
      case '\n' => Write("\\n");
      case '\r' => Write("\\r");
      case '\t' => Write("\\t");
      case _ => Write([c]);
    }

    /** One byte of a string value (the switch of json_string). */
    method WriteValueByte(c: char)
      requires Valid()
      modifies this`pos, this`error, this`text, buf
      ensures Valid() && text == old(text) + EscapeChar(c)
      ensures forall i :: size <= i < buf.Length ==> buf[i] == old(buf[i])
    {
      match c
      case '\"' => Write("\\\"");
      case '\\' => Write("\\\\");
      case '\n' => Write("\\n");
      case '\r' => Write("\\r");
      case '\t' => Write("\\t");
      case _ =>
        if c < ' ' {
          Write("\\u00" + [HexDigit(c as int / 16), HexDigit(c as int % 16)]);
        } else {
          Write([c]);
        }
    }

    /** The loop over the bytes of a key. */
    method WriteKeyBytes(key: string)
      requires Valid()
      modifies this`pos, this`error, this`text, buf
      ensures Valid() && text == old(text) + EscapeKey(key)
      ensures forall i :: size <= i < buf.Length ==> buf[i] == old(buf[i])
    {
      hide Valid;
      assert text == old(text) + "";
      for p := 0 to |key|
        invariant Valid() && text == old(text) + EscapeKey(key[..p])
        invariant forall i :: size <= i < buf.Length ==> buf[i] == old(buf[i])
      {
        assert key[..p + 1] == key[..p] + [key[p]];
        EscapeKeyAppend(key[..p], key[p]);
        Assoc(old(text), EscapeKey(key[..p]), EscapeCommon(key[p]));
        WriteKeyByte(key[p]);
      }
      assert key[..|key|] == key;
    }

    /** The loop over the bytes of a string value. */
    method WriteValueBytes(value: string)
      requires Valid()
      modifies this`pos, this`error, this`text, buf
      ensures Valid() && text == old(text) + EscapeString(value)
      ensures forall i :: size <= i < buf.Length ==> buf[i] == old(buf[i])
    {
      hide Valid;
      assert text == old(text) + "";
      for p := 0 to |value|
        invariant Valid() && text == old(text) + EscapeString(value[..p])
        invariant forall i :: size <= i < buf.Length ==> buf[i] == old(buf[i])
      {
        assert value[..p + 1] == value[..p] + [value[p]];
        EscapeStringAppend(value[..p], value[p]);
        Assoc(old(text), EscapeString(value[..p]), EscapeChar(value[p]));
        WriteValueByte(value[p]);
      }
      assert value[..|value|] == value;
    }

    method PutKey(key: string)
      requires Valid()
      modifies this, buf
      ensures Valid() && State() == Step(old(State()), Key(key))
      ensures forall i :: size <= i < buf.Length ==> buf[i] == old(buf[i])
    {
      CommaIfNeeded();
      Assoc4(text, "\"", EscapeKey(key), "\":");
      Write("\"");
      WriteKeyBytes(key);
      Write("\":");
      Assoc("\"", EscapeKey(key), "\":");
    }

    /** json_string; None is a NULL pointer. */
    method PutText(value: Option<string>)
      requires Valid()
      modifies this, buf
      ensures Valid() && State() == Step(old(State()), PutString(value))
      ensures forall i :: size <= i < buf.Length ==> buf[i] == old(buf[i])
    {
      CommaIfNeeded();
      if value.None? {
        Write("null");
        needsComma := true;
        return;
      }
      Assoc4(text, "\"", EscapeString(value.value), "\"");
      Write("\"");
      WriteValueBytes(value.value);
      Write("\"");
      Assoc("\"", EscapeString(value.value), "\"");
      needsComma := true;
    }

    /** json_int and json_uint: the numeral fits their 32-byte scratch buffer. */
    method PutNumber(value: int)
      requires Valid() && INT64_MIN <= value <= UINT64_MAX
      modifies this, buf
      ensures Valid() && State() == Step(old(State()), PutInt(value))
      ensures forall i :: size <= i < buf.Length ==> buf[i] == old(buf[i])
    {
      CommaIfNeeded();
      var numeral := Signed(value);
      assert |numeral| < 32 by { NumeralFits(value); }
      Write(numeral);
      needsComma := true;
    }

    method PutBoolean(value: bool)
      requires Valid()
      modifies this, buf
      ensures Valid() && State() == Step(old(State()), PutBool(value))
      ensures forall i :: size <= i < buf.Length ==> buf[i] == old(buf[i])
    {
      CommaIfNeeded();
      Write(if value then "true" else "false");
      needsComma := true;
    }

    method PutNothing()
      requires Valid()
      modifies this, buf
      ensures Valid() && State() == Step(old(State()), PutNull)
      ensures forall i :: size <= i < buf.Length ==> buf[i] == old(buf[i])
    {
      CommaIfNeeded();
      Write("null");
      needsComma := true;
    }

    /** json_kv_int and json_kv_uint. */
    method KeyNumber(key: string, value: int)
      requires Valid() && INT64_MIN <= value <= UINT64_MAX
      modifies this, buf
      ensures Valid() && State() == Run(old(State()), [Key(key), PutInt(value)])
      ensures forall i :: size <= i < buf.Length ==> buf[i] == old(buf[i])
    {
      PutKey(key);
      needsComma := false;
      RunTwo(old(State()), Key(key), PutInt(value));
      PutNumber(value);
    }

    /** json_kv_string. */
    method KeyText(key: string, value: Option<string>)
      requires Valid()
      modifies this, buf
      ensures Valid() && State() == Run(old(State()), [Key(key), PutString(value)])
      ensures forall i :: size <= i < buf.Length ==> buf[i] == old(buf[i])
    {
      PutKey(key);
      needsComma := false;
      RunTwo(old(State()), Key(key), PutString(value));
      PutText(value);
    }

    /** json_kv_bool. */
    method KeyBoolean(key: string, value: bool)
      requires Valid()
      modifies this, buf
      ensures Valid() && State() == Run(old(State()), [Key(key), PutBool(value)])
      ensures forall i :: size <= i < buf.Length ==> buf[i] == old(buf[i])
    {
      PutKey(key);
      needsComma := false;
      RunTwo(old(State()), Key(key), PutBool(value));
      PutBoolean(value);
    }

    method Call(op: Op)
      requires Valid() && InRange(op)
      modifies this, buf
      ensures Valid() && State() == Step(old(State()), op)
      ensures forall i :: size <= i < buf.Length ==> buf[i] == old(buf[i])
    {
      match op
      case ObjectStart => StartObject();
      case ObjectEnd => EndObject();
      case ArrayStart => StartArray();
      case ArrayEnd => EndArray();
      case Key(k) => PutKey(k);
      case PutString(v) => PutText(v);
      case PutInt(n) => PutNumber(n);
      case PutBool(b) => PutBoolean(b);
      case PutNull => PutNothing();
    }

    /** Any sequence of builder calls: the state is that of the unlimited writer,
        whether or not the buffer overflowed on the way. */
    method CallAll(ops: seq<Op>)
      requires Valid() && forall i :: 0 <= i < |ops| ==> InRange(ops[i])
      modifies this, buf
      ensures Valid() && State() == Run(old(State()), ops)
      ensures forall i :: size <= i < buf.Length ==> buf[i] == old(buf[i])
    {
      for k := 0 to |ops|
        invariant Valid() && Run(State(), ops[k..]) == Run(old(State()), ops)
        invariant forall i :: size <= i < buf.Length ==> buf[i] == old(buf[i])
      {
        assert ops[k..][0] == ops[k] && ops[k..][1..] == ops[k + 1..];
        Call(ops[k]);
      }
      assert ops[|ops|..] == [];
    }

    /** json_length. */
    function Length(): nat
      reads this
    {
      pos
    }
  }

  /** A finished document in a bounded buffer: it is all there, and parses back,
      exactly when its text leaves room for the NUL; otherwise what is there is a
      shorter prefix of the text. */
  lemma FinishedBuffer(b: JsonBuilder, ops: seq<Op>, t: Json)
    requires b.Valid() && b.size > 0 && b.State() == Run(BLANK, ops)
    requires Describes(ops, t) && PrintableKeys(t)
    ensures b.error <==> |JsonText(t)| >= b.size
    ensures !b.error ==> b.buf[..b.pos] == JsonText(t) && Parse(b.buf[..b.pos]) == Some(t)
    ensures b.error ==> b.buf[..b.pos] < JsonText(t)
  {
    FinishedText(ops, t);
    RoundTrip(t);
  }
}
