/** What json.c writes into a buffer without a limit, and why one comma flag is
    enough: the flag-based writer refines a printer that knows the whole stack
    of open containers. */
module JsonWriter {
  import opened Text
  import opened JsonTree

  /** One call of the builder interface. PutString(None) is a NULL pointer. */
  datatype Op =
    | ObjectStart
    | ObjectEnd
    | ArrayStart
    | ArrayEnd
    | Key(key: string)
    | PutString(value: Option<string>)
    | PutInt(n: int)
    | PutBool(b: bool)
    | PutNull

  /** The builder without its buffer: all the text it was asked to write, the
      nesting counter and the comma flag. */
  datatype Writer = Writer(text: string, depth: int, comma: bool) {
    function Put(s: string): Writer {
      this.(text := text + s)
    }

    function Separate(): Writer {
      Put(if comma then "," else "").(comma := false)
    }
  }

  const BLANK := Writer("", 0, false)

  function OpenText(op: Op): string
    requires op.ObjectStart? || op.ArrayStart?
  {
    if op.ObjectStart? then "{" else "["
  }

  function ScalarText(op: Op): string
    requires op.PutString? || op.PutInt? || op.PutBool? || op.PutNull?
  {
    match op
    case PutString(Some(s)) => QuotedString(s)
    case PutString(None) => "null"
    case PutInt(n) => Signed(n)
    case PutBool(b) => Literal(b)
    case PutNull => "null"
  }

  /** The effect of one builder call. */
  function Step(w: Writer, op: Op): Writer {
    match op
    case ObjectStart => var v := w.Separate().Put("{"); v.(depth := v.depth + 1)
    case ArrayStart => var v := w.Separate().Put("["); v.(depth := v.depth + 1)
    case ObjectEnd => var v := w.Put("}"); v.(depth := v.depth - 1, comma := true)
    case ArrayEnd => var v := w.Put("]"); v.(depth := v.depth - 1, comma := true)
    case Key(k) => w.Separate().Put(QuotedKey(k))
    case _ => w.Separate().Put(ScalarText(op)).(comma := true)
  }

  function Run(w: Writer, ops: seq<Op>): Writer
    decreases ops
  {
    if ops == [] then w else Run(Step(w, ops[0]), ops[1..])
  }

  lemma {:induction false} RunAppend(w: Writer, a: seq<Op>, b: seq<Op>)
    ensures Run(w, a + b) == Run(Run(w, a), b)
    decreases a
  {
    if a == [] {
      assert a + b == b;
    } else {
      assert (a + b)[1..] == a[1..] + b;
      RunAppend(Step(w, a[0]), a[1..], b);
    }
  }

  lemma RunTwo(w: Writer, a: Op, b: Op)
    ensures Run(w, [a, b]) == Step(Step(w, a), b)
  {
    assert [a, b][1..] == [b] && [b][1..] == [];
    assert Run(Step(w, a), [b]) == Run(Step(Step(w, a), b), []);
  }

  /** An open container: what it holds so far and, for an object, the key that
      waits for its value. */
  datatype Frame =
    | ArrFrame(items: seq<Json>)
    | ObjFrame(members: seq<Member>, key: Option<string>)
  {
    /** A finished member and no key pending: the next element needs a comma. */
    predicate Due() {
      match this
      case ArrFrame(items) => items != []
      case ObjFrame(members, key) => members != [] && key.None?
    }

    predicate TakesValue() {
      ArrFrame? || key.Some?
    }

    predicate TakesKey() {
      ObjFrame? && key.None?
    }

    function Add(t: Json): Frame
      requires TakesValue()
    {
      match this
      case ArrFrame(items) => ArrFrame(items + [t])
      case ObjFrame(members, key) => ObjFrame(members + [Member(key.value, t)], None)
    }

    /** The text of an open container. */
    function Prefix(): string {
      match this
      case ArrFrame(items) => "[" + ItemsText(items)
      case ObjFrame(members, None) => "{" + MembersText(members)
      case ObjFrame(members, Some(k)) =>
        "{" + MembersText(members) + (if members == [] then "" else ",") + QuotedKey(k)
    }
  }

  /** The reference printer: the stack of open containers and the finished root. */
  datatype Document = Document(stack: seq<Frame>, root: Option<Json>) {
    function Top(): Frame
      requires stack != []
    {
      stack[|stack| - 1]
    }

    function SetTop(f: Frame): Document
      requires stack != []
    {
      this.(stack := stack[..|stack| - 1] + [f])
    }

    function Pop(): Document
      requires stack != []
    {
      this.(stack := stack[..|stack| - 1])
    }

    predicate TakesValue() {
      if stack == [] then root.None? else Top().TakesValue()
    }

    function AddValue(t: Json): Document
      requires TakesValue()
    {
      if stack == [] then this.(root := Some(t)) else SetTop(Top().Add(t))
    }

    predicate Due() {
      if stack == [] then root.Some? else Top().Due()
    }

    /** The order of calls that the JSON grammar allows. */
    predicate Allows(op: Op) {
      match op
      case ObjectEnd => stack != [] && Top().TakesKey()
      case ArrayEnd => stack != [] && Top().ArrFrame?
      case Key(_) => stack != [] && Top().TakesKey()
      case _ => TakesValue()
    }

    function Apply(op: Op): (d: Document)
      requires Allows(op)
    {
      match op
      case ObjectStart => this.(stack := stack + [ObjFrame([], None)])
      case ArrayStart => this.(stack := stack + [ArrFrame([])])
      case ObjectEnd => CloseTop(Obj(Top().members))
      case ArrayEnd => CloseTop(Arr(Top().items))
      case Key(k) => SetTop(Top().(key := Some(k)))
      case _ => AddValue(ScalarValue(op))
    }

    /** Close the innermost container and hand it to the one around it. Containers
        open only where a value may stand, so the `else` is never reached from
        `START`; see PopTakesValue. */
    function CloseTop(t: Json): Document
      requires stack != []
    {
      if Pop().TakesValue() then Pop().AddValue(t) else Pop()
    }
  }

  const START := Document([], None)

  function ScalarValue(op: Op): Json
    requires op.PutString? || op.PutInt? || op.PutBool? || op.PutNull?
  {
    match op
    case PutString(Some(s)) => Str(s)
    case PutString(None) => Null
    case PutInt(n) => Int(n)
    case PutBool(b) => Bool(b)
    case PutNull => Null
  }

  predicate Legal(d: Document, ops: seq<Op>)
    decreases ops
  {
    ops == [] || (d.Allows(ops[0]) && Legal(d.Apply(ops[0]), ops[1..]))
  }

  function Build(d: Document, ops: seq<Op>): Document
    requires Legal(d, ops)
    decreases ops
  {
    if ops == [] then d else Build(d.Apply(ops[0]), ops[1..])
  }

  lemma {:induction false} LegalAppend(d: Document, a: seq<Op>, b: seq<Op>)
    requires Legal(d, a) && Legal(Build(d, a), b)
    ensures Legal(d, a + b) && Build(d, a + b) == Build(Build(d, a), b)
    decreases a
  {
    if a == [] {
      assert a + b == b;
    } else {
      assert (a + b)[0] == a[0] && (a + b)[1..] == a[1..] + b;
      LegalAppend(d.Apply(a[0]), a[1..], b);
    }
  }

  /** Each open container stands where the one below it takes a value. */
  predicate WellNested(d: Document) {
    && (forall i :: 0 <= i < |d.stack| - 1 ==> d.stack[i].TakesValue())
    && (d.stack != [] ==> d.root.None?)
  }

  /** The text of all open containers, outermost first. */
  function StackText(stack: seq<Frame>): string
    decreases |stack|, 0
  {
    if stack == [] then ""
    else Around(stack[..|stack| - 1]) + stack[|stack| - 1].Prefix()
  }

  /** The text before a container opened on top of `below`. */
  function Around(below: seq<Frame>): string
    decreases |below|, 1
  {
    StackText(below) + (if below != [] && below[|below| - 1].Due() then "," else "")
  }

  function DocumentText(d: Document): string {
    if d.stack == [] && d.root.Some? then JsonText(d.root.value) else StackText(d.stack)
  }

  /** The simulation relation between the flag-based writer and the stack. */
  predicate Tracks(w: Writer, d: Document) {
    && WellNested(d)
    && w.text == DocumentText(d)
    && w.depth == |d.stack|
    && w.comma == d.Due()
  }

  lemma AddPrefix(f: Frame, t: Json)
    requires f.TakesValue()
    ensures f.Add(t).Prefix() == f.Prefix() + ((if f.Due() then "," else "") + JsonText(t))
    ensures f.Add(t).Due()
  {
    match f {
      case ArrFrame(items) =>
        ItemsTextAppend(items, t);
        Associate("[", ItemsText(items), if items == [] then "" else ",", JsonText(t));
      case ObjFrame(members, key) =>
        MembersTextAppend(members, Member(key.value, t));
        Associate("{", MembersText(members), if members == [] then "" else ",", MemberText(Member(key.value, t)));
        Associate("{" + MembersText(members), if members == [] then "" else ",", QuotedKey(key.value), JsonText(t));
        assert f.Prefix() + ("" + JsonText(t)) == f.Prefix() + JsonText(t);
    }
  }

  lemma Associate(a: string, b: string, c: string, d: string)
    ensures a + (b + c + d) == a + b + (c + d) == a + b + c + d == a + (b + (c + d))
  {
    assert a + (b + c + d) == a + b + (c + d);
    assert a + b + (c + d) == a + b + c + d;
    assert a + b + (c + d) == a + (b + (c + d));
  }

  lemma AppendMore(s: string, p: string, q: string, more: string)
    requires q == p + more
    ensures s + q == s + p + more
  {
  }

  /** Replacing the innermost container by one whose text is longer by `more`. */
  lemma ReplaceTopText(stack: seq<Frame>, f: Frame, more: string)
    requires stack != [] && f.Prefix() == stack[|stack| - 1].Prefix() + more
    ensures StackText(stack[..|stack| - 1] + [f]) == StackText(stack) + more
  {
    var below := stack[..|stack| - 1];
    assert (below + [f])[..|below|] == below;
    AppendMore(Around(below), stack[|stack| - 1].Prefix(), f.Prefix(), more);
  }

  lemma AddValueText(d: Document, t: Json)
    requires WellNested(d) && d.TakesValue()
    ensures WellNested(d.AddValue(t)) && d.AddValue(t).Due()
    ensures DocumentText(d.AddValue(t)) == DocumentText(d) + ((if d.Due() then "," else "") + JsonText(t))
  {
    if d.stack != [] {
      AddPrefix(d.Top(), t);
      ReplaceTopText(d.stack, d.Top().Add(t), (if d.Due() then "," else "") + JsonText(t));
    }
  }

  lemma OpenKeepsTracking(w: Writer, d: Document, op: Op)
    requires Tracks(w, d) && d.Allows(op)
    requires op.ObjectStart? || op.ArrayStart?
    ensures Tracks(Step(w, op), d.Apply(op))
  {
    var e := d.Apply(op);
    assert e.stack[..|d.stack|] == d.stack;
    assert e.Top().Prefix() == OpenText(op);
    assert e.Due() == false;
    assert w.text + (if d.Due() then "," else "") == Around(d.stack);
  }

  lemma ContainerText(f: Frame)
    requires f.TakesKey() || f.ArrFrame?
    ensures JsonText(if f.ObjFrame? then Obj(f.members) else Arr(f.items))
         == f.Prefix() + (if f.ObjFrame? then "}" else "]")
  {
  }

  lemma PopTakesValue(d: Document)
    requires WellNested(d) && d.stack != []
    ensures d.Pop().TakesValue() && WellNested(d.Pop())
    ensures DocumentText(d) == DocumentText(d.Pop()) + (if d.Pop().Due() then "," else "") + d.Top().Prefix()
  {
    var below := d.Pop();
    assert DocumentText(d) == Around(below.stack) + d.Top().Prefix();
    if below.stack != [] {
      assert below.Top() == d.stack[|d.stack| - 2];
    }
  }

  lemma CloseKeepsTracking(w: Writer, d: Document, op: Op)
    requires Tracks(w, d) && d.Allows(op)
    requires op.ObjectEnd? || op.ArrayEnd?
    ensures Tracks(Step(w, op), d.Apply(op))
  {
    PopTakesValue(d);
    ContainerText(d.Top());
    var below := d.Pop();
    AddValueText(below, if op.ObjectEnd? then Obj(d.Top().members) else Arr(d.Top().items));
    Associate(DocumentText(below), if below.Due() then "," else "", d.Top().Prefix(),
              if op.ObjectEnd? then "}" else "]");
  }

  lemma KeyPrefix(f: Frame, k: string)
    requires f.TakesKey()
    ensures f.(key := Some(k)).Prefix() == f.Prefix() + ((if f.Due() then "," else "") + QuotedKey(k))
  {
    Associate("{", MembersText(f.members), if f.Due() then "," else "", QuotedKey(k));
  }

  lemma KeyKeepsTracking(w: Writer, d: Document, k: string)
    requires Tracks(w, d) && d.Allows(Key(k))
    ensures Tracks(Step(w, Key(k)), d.Apply(Key(k)))
  {
    hide QuotedKey;
    hide MembersText;
    hide ItemsText;
    hide JsonText;
    hide StackText;
    var comma := if d.Due() then "," else "";
    KeyPrefix(d.Top(), k);
    ReplaceTopText(d.stack, d.Top().(key := Some(k)), comma + QuotedKey(k));
    AppendMore(w.text, comma, comma + QuotedKey(k), QuotedKey(k));
  }

  lemma ScalarTextIs(op: Op)
    requires op.PutString? || op.PutInt? || op.PutBool? || op.PutNull?
    ensures JsonText(ScalarValue(op)) == ScalarText(op)
  {
  }

  lemma ScalarKeepsTracking(w: Writer, d: Document, op: Op)
    requires op.PutString? || op.PutInt? || op.PutBool? || op.PutNull?
    requires Tracks(w, d) && d.Allows(op)
    ensures Tracks(Step(w, op), d.Apply(op))
  {
    hide JsonText;
    hide ScalarText;
    hide StackText;
    ScalarTextIs(op);
    var t := ScalarValue(op);
    AddValueText(d, t);
    var comma := if d.Due() then "," else "";
    assert Step(w, op) == Writer(w.text + comma + ScalarText(op), w.depth, true);
    AppendMore(w.text, comma, comma + ScalarText(op), ScalarText(op));
  }

  /** One call keeps the writer in step with the stack. */
  lemma StepKeepsTracking(w: Writer, d: Document, op: Op)
    requires Tracks(w, d) && d.Allows(op)
    ensures Tracks(Step(w, op), d.Apply(op))
  {
    match op {
      case ObjectStart => OpenKeepsTracking(w, d, op);
      case ArrayStart => OpenKeepsTracking(w, d, op);
      case ObjectEnd => CloseKeepsTracking(w, d, op);
      case ArrayEnd => CloseKeepsTracking(w, d, op);
      case Key(k) => KeyKeepsTracking(w, d, k);
      case _ => ScalarKeepsTracking(w, d, op);
    }
  }

  /** Along every legal sequence of calls the depth counter is the number of open
      containers, the comma flag is set exactly when the innermost one holds a
      finished member and no pending key, and the text is the reference text. */
  lemma {:induction false} RunTracksDocument(w: Writer, d: Document, ops: seq<Op>)
    requires Tracks(w, d) && Legal(d, ops)
    ensures Tracks(Run(w, ops), Build(d, ops))
    decreases ops
  {
    if ops != [] {
      StepKeepsTracking(w, d, ops[0]);
      RunTracksDocument(Step(w, ops[0]), d.Apply(ops[0]), ops[1..]);
    }
  }

  /** The calls are in an order the grammar allows, close all they open, and describe
      the value `t`. */
  predicate Describes(ops: seq<Op>, t: Json) {
    Legal(START, ops) && Build(START, ops) == Document([], Some(t))
  }

  /** A legal sequence of calls that closes all it opened has written exactly the
      compact text of the one value it describes. */
  lemma FinishedText(ops: seq<Op>, t: Json)
    requires Describes(ops, t)
    ensures Run(BLANK, ops) == Writer(JsonText(t), 0, true)
  {
    RunTracksDocument(BLANK, START, ops);
  }

  /** The calls that emit a value. */
  function Calls(t: Json): seq<Op>
    requires !HasReal(t)
    decreases t
  {
    match t
    case Null => [PutNull]
    case Bool(b) => [PutBool(b)]
    case Int(n) => [PutInt(n)]
    case Str(s) => [PutString(Some(s))]
    case Arr(items) => [ArrayStart] + ItemCalls(items) + [ArrayEnd]
    case Obj(members) => [ObjectStart] + MemberCalls(members) + [ObjectEnd]
  }

  function ItemCalls(items: seq<Json>): seq<Op>
    requires forall i :: 0 <= i < |items| ==> !HasReal(items[i])
    decreases items
  {
    if items == [] then [] else Calls(items[0]) + ItemCalls(items[1..])
  }

  function MemberCalls(members: seq<Member>): seq<Op>
    requires forall i :: 0 <= i < |members| ==> !MemberHasReal(members[i])
    decreases members
  {
    if members == [] then []
    else
      assert !MemberHasReal(members[0]);
      [Key(members[0].key)] + Calls(members[0].value) + MemberCalls(members[1..])
  }

  predicate HasReal(t: Json)
    decreases t
  {
    match t
    case Real(_, _) => true
    case Arr(items) => exists i :: 0 <= i < |items| && HasReal(items[i])
    case Obj(members) => exists i :: 0 <= i < |members| && MemberHasReal(members[i])
    case _ => false
  }

  predicate MemberHasReal(m: Member)
    decreases m
  {
    HasReal(m.value)
  }

  lemma OneCall(d: Document, op: Op)
    requires d.Allows(op)
    ensures Legal(d, [op]) && Build(d, [op]) == d.Apply(op)
  {
    assert [op][1..] == [];
  }

  /** What each scalar call stands for; a null string pointer is a null. */
  lemma ScalarCalls(d: Document, s: string, n: int, b: bool)
    requires d.TakesValue()
    ensures Build(d, [PutString(Some(s))]) == d.AddValue(Str(s))
    ensures Build(d, [PutString(None)]) == d.AddValue(Null) && Build(d, [PutNull]) == d.AddValue(Null)
    ensures Build(d, [PutInt(n)]) == d.AddValue(Int(n)) && Build(d, [PutBool(b)]) == d.AddValue(Bool(b))
  {
    OneCall(d, PutString(Some(s)));
    OneCall(d, PutString(None));
    OneCall(d, PutNull);
    OneCall(d, PutInt(n));
    OneCall(d, PutBool(b));
  }

  lemma Bracketed(d: Document, first: Op, body: seq<Op>, last: Op)
    requires d.Allows(first) && Legal(d.Apply(first), body)
    requires Build(d.Apply(first), body).Allows(last)
    ensures Legal(d, [first] + body + [last])
    ensures Build(d, [first] + body + [last]) == Build(d.Apply(first), body).Apply(last)
  {
    OneCall(d, first);
    LegalAppend(d, [first], body);
    OneCall(Build(d, [first] + body), last);
    LegalAppend(d, [first] + body, [last]);
  }

  lemma {:induction false} ArrayCallsAddValue(d: Document, items: seq<Json>)
    requires d.TakesValue() && !HasReal(Arr(items))
    ensures Legal(d, Calls(Arr(items))) && Build(d, Calls(Arr(items))) == d.AddValue(Arr(items))
    decreases items, 1
  {
    var inner := d.Apply(ArrayStart);
    ItemCallsAddItems(inner, items);
    var filled := Build(inner, ItemCalls(items));
    assert [] + items == items;
    assert filled.Top() == ArrFrame(items) && filled.Pop() == d;
    Bracketed(d, ArrayStart, ItemCalls(items), ArrayEnd);
  }

  lemma {:induction false} ObjectCallsAddValue(d: Document, members: seq<Member>)
    requires d.TakesValue() && !HasReal(Obj(members))
    ensures Legal(d, Calls(Obj(members))) && Build(d, Calls(Obj(members))) == d.AddValue(Obj(members))
    decreases members, 1
  {
    var inner := d.Apply(ObjectStart);
    MemberCallsAddMembers(inner, members);
    var filled := Build(inner, MemberCalls(members));
    assert [] + members == members;
    assert filled.Top() == ObjFrame(members, None) && filled.Pop() == d;
    Bracketed(d, ObjectStart, MemberCalls(members), ObjectEnd);
  }

  /** Wherever a value may stand, the calls for `t` are legal and add exactly `t`. */
  lemma {:induction false} CallsAddValue(d: Document, t: Json)
    requires d.TakesValue() && !HasReal(t)
    ensures Legal(d, Calls(t)) && Build(d, Calls(t)) == d.AddValue(t)
    decreases t, 0
  {
    match t {
      case Arr(items) => ArrayCallsAddValue(d, items);
      case Obj(members) => ObjectCallsAddValue(d, members);
      case Null => OneCall(d, PutNull);
      case Bool(b) => OneCall(d, PutBool(b));
      case Int(n) => OneCall(d, PutInt(n));
      case Str(s) => OneCall(d, PutString(Some(s)));
    }
  }

  lemma NoCalls(d: Document)
    ensures Legal(d, []) && Build(d, []) == d
  {
  }

  lemma {:induction false} ItemCallsAddItems(d: Document, items: seq<Json>)
    requires d.stack != [] && d.Top().ArrFrame?
    requires forall i :: 0 <= i < |items| ==> !HasReal(items[i])
    ensures Legal(d, ItemCalls(items))
    ensures Build(d, ItemCalls(items)) == d.SetTop(ArrFrame(d.Top().items + items))
    decreases items, 0
  {
    hide Legal;
    hide Build;
    if items == [] {
      NoCalls(d);
      assert d.Top().items + items == d.Top().items;
      assert d.SetTop(d.Top()) == d;
    } else {
      CallsAddValue(d, items[0]);
      var f := ArrFrame(d.Top().items + [items[0]]);
      var e := d.SetTop(f);
      ItemCallsAddItems(e, items[1..]);
      LegalAppend(d, Calls(items[0]), ItemCalls(items[1..]));
      assert f.items + items[1..] == d.Top().items + items;
      SetTopTwice(d, f, ArrFrame(d.Top().items + items));
    }
  }

  lemma SetTopTwice(d: Document, f: Frame, g: Frame)
    requires d.stack != []
    ensures d.SetTop(f).SetTop(g) == d.SetTop(g)
  {
    assert d.SetTop(f).stack[..|d.stack| - 1] == d.stack[..|d.stack| - 1];
  }

  lemma {:induction false} MemberCallsAdd(d: Document, m: Member)
    requires d.stack != [] && d.Top().TakesKey() && !MemberHasReal(m)
    ensures Legal(d, [Key(m.key)] + Calls(m.value))
    ensures Build(d, [Key(m.key)] + Calls(m.value)) == d.SetTop(ObjFrame(d.Top().members + [m], None))
    decreases m
  {
    OneCall(d, Key(m.key));
    var f := d.Top().(key := Some(m.key));
    CallsAddValue(d.SetTop(f), m.value);
    LegalAppend(d, [Key(m.key)], Calls(m.value));
    SetTopTwice(d, f, f.Add(m.value));
  }

  lemma {:induction false} MemberCallsAddMembers(d: Document, members: seq<Member>)
    requires d.stack != [] && d.Top().TakesKey()
    requires forall i :: 0 <= i < |members| ==> !MemberHasReal(members[i])
    ensures Legal(d, MemberCalls(members))
    ensures Build(d, MemberCalls(members)) == d.SetTop(ObjFrame(d.Top().members + members, None))
    decreases members, 0
  {
    if members == [] {
      assert d.Top().members + members == d.Top().members;
      assert d.SetTop(d.Top()) == d;
    } else {
      var m := members[0];
      MemberCallsAdd(d, m);
      var f := ObjFrame(d.Top().members + [m], None);
      MemberCallsAddMembers(d.SetTop(f), members[1..]);
      LegalAppend(d, [Key(m.key)] + Calls(m.value), MemberCalls(members[1..]));
      assert f.members + members[1..] == d.Top().members + members;
      SetTopTwice(d, f, ObjFrame(d.Top().members + members, None));
    }
  }

  /** Every value without fractions or exponents has a legal sequence of calls, and it
      writes the value's text. */
  lemma CallsWriteText(t: Json)
    requires !HasReal(t)
    ensures Describes(Calls(t), t)
    ensures Run(BLANK, Calls(t)).text == JsonText(t)
  {
    CallsAddValue(START, t);
    FinishedText(Calls(t), t);
  }
}
