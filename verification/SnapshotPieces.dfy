/** The json_write calls behind the builder's interface (json.c), one string a call,
    and what of them the snapshot buffer keeps. */
module SnapshotPieces {
  import opened Sequences
  import opened Text
  import opened JsonTree
  import opened JsonWriter
  import opened SharedSnapshot

  function KeyBytes(k: string): seq<string> {
    if k == "" then [] else [EscapeCommon(k[0])] + KeyBytes(k[1..])
  }

  function ValueBytes(s: string): seq<string> {
    if s == "" then [] else [EscapeChar(s[0])] + ValueBytes(s[1..])
  }

  function ScalarPieces(op: Op): seq<string>
    requires op.PutString? || op.PutInt? || op.PutBool? || op.PutNull?
  {
    match op
    case PutString(Some(s)) => ["\""] + ValueBytes(s) + ["\""]
    case _ => [ScalarText(op)]
  }

  /** The pieces one call writes, given the comma flag. */
  function OpPieces(comma: bool, op: Op): seq<string> {
    var separator := if comma then [","] else [];
    match op
    case ObjectStart => separator + ["{"]
    case ArrayStart => separator + ["["]
    case ObjectEnd => ["}"]
    case ArrayEnd => ["]"]
    case Key(k) => separator + (["\""] + KeyBytes(k) + ["\":"])
    case _ => separator + ScalarPieces(op)
  }

  function Pieces(w: Writer, ops: seq<Op>): seq<string>
    decreases ops
  {
    if ops == [] then [] else OpPieces(w.comma, ops[0]) + Pieces(Step(w, ops[0]), ops[1..])
  }

  lemma {:induction false} ConcatAppend(a: seq<string>, b: seq<string>)
    ensures Concat(a + b) == Concat(a) + Concat(b)
    decreases |b|
  {
    if b == [] {
      assert a + b == a;
    } else {
      var n := |b| - 1;
      assert (a + b)[..|a| + n] == a + b[..n];
      ConcatAppend(a, b[..n]);
      Assoc(Concat(a), Concat(b[..n]), b[n]);
    }
  }

  lemma ConcatOne(s: string)
    ensures Concat([s]) == s
  {
    assert [s][..0] == [];
  }

  lemma {:induction false} KeyBytesAre(k: string)
    ensures Concat(KeyBytes(k)) == EscapeKey(k)
  {
    if k != "" {
      KeyBytesAre(k[1..]);
      ConcatOne(EscapeCommon(k[0]));
      ConcatAppend([EscapeCommon(k[0])], KeyBytes(k[1..]));
    }
  }

  lemma {:induction false} ValueBytesAre(s: string)
    ensures Concat(ValueBytes(s)) == EscapeString(s)
  {
    if s != "" {
      ValueBytesAre(s[1..]);
      ConcatOne(EscapeChar(s[0]));
      ConcatAppend([EscapeChar(s[0])], ValueBytes(s[1..]));
    }
  }

  lemma QuotedPieces(bytes: seq<string>, end: string)
    ensures Concat(["\""] + bytes + [end]) == "\"" + Concat(bytes) + end
  {
    ConcatAppend(["\""] + bytes, [end]);
    ConcatAppend(["\""], bytes);
    ConcatOne("\"");
    ConcatOne(end);
  }

  lemma OpPiecesAre(w: Writer, op: Op)
    ensures w.text + Concat(OpPieces(w.comma, op)) == Step(w, op).text
  {
    hide Concat;
    var separator := if w.comma then [","] else [];
    var comma := if w.comma then "," else "";
    assert Concat(separator) == comma by { ConcatOne(","); NoPieces(); }
    match op {
      case ObjectStart => Separated(w.text, separator, ["{"], "{");
      case ArrayStart => Separated(w.text, separator, ["["], "[");
      case ObjectEnd => ConcatOne("}");
      case ArrayEnd => ConcatOne("]");
      case Key(k) =>
        KeyBytesAre(k);
        QuotedPieces(KeyBytes(k), "\":");
        Separated(w.text, separator, ["\""] + KeyBytes(k) + ["\":"], QuotedKey(k));
      case PutString(Some(s)) =>
        ValueBytesAre(s);
        QuotedPieces(ValueBytes(s), "\"");
        Separated(w.text, separator, ScalarPieces(op), QuotedString(s));
      case _ => Separated(w.text, separator, [ScalarText(op)], ScalarText(op));
    }
  }

  lemma NoPieces()
    ensures Concat([]) == ""
  {
  }

  lemma Separated(text: string, separator: seq<string>, pieces: seq<string>, s: string)
    requires pieces == [s] || Concat(pieces) == s
    ensures text + Concat(separator + pieces) == text + Concat(separator) + s
  {
    ConcatAppend(separator, pieces);
    ConcatOne(s);
    Assoc(text, Concat(separator), s);
  }

  /** The pieces of a sequence of calls add up to the text of the unlimited writer. */
  lemma {:induction false} PiecesAre(w: Writer, ops: seq<Op>)
    ensures w.text + Concat(Pieces(w, ops)) == Run(w, ops).text
    decreases ops
  {
    hide Concat;
    hide Step;
    hide OpPieces;
    if ops == [] {
      NoPieces();
    } else {
      var v := Step(w, ops[0]);
      OpPiecesAre(w, ops[0]);
      PiecesAre(v, ops[1..]);
      ConcatAppend(OpPieces(w.comma, ops[0]), Pieces(v, ops[1..]));
      Assoc(w.text, Concat(OpPieces(w.comma, ops[0])), Concat(Pieces(v, ops[1..])));
    }
  }

  /** No numeral is longer than the room between the reply limit and the buffer's
      end. */
  predicate ShortNumerals(ops: seq<Op>) {
    forall i :: 0 <= i < |ops| && ops[i].PutInt? ==> |Signed(ops[i].n)| <= SIZE - LIMIT
  }

  lemma {:induction false} BytesAreShort(s: string)
    ensures forall k :: 0 <= k < |KeyBytes(s)| ==> |KeyBytes(s)[k]| <= 6
    ensures forall k :: 0 <= k < |ValueBytes(s)| ==> |ValueBytes(s)[k]| <= 6
  {
    if s != "" {
      BytesAreShort(s[1..]);
    }
  }

  lemma {:induction false} PiecesAreShort(w: Writer, ops: seq<Op>)
    requires ShortNumerals(ops)
    ensures forall k :: 0 <= k < |Pieces(w, ops)| ==> |Pieces(w, ops)[k]| <= SIZE - LIMIT
    decreases ops
  {
    hide OpPieces;
    hide Step;
    if ops != [] {
      OpPiecesAreShort(w.comma, ops[0]);
      PiecesAreShort(Step(w, ops[0]), ops[1..]);
    }
  }

  lemma OpPiecesAreShort(comma: bool, op: Op)
    requires op.PutInt? ==> |Signed(op.n)| <= SIZE - LIMIT
    ensures forall k :: 0 <= k < |OpPieces(comma, op)| ==> |OpPieces(comma, op)[k]| <= SIZE - LIMIT
  {
    match op {
      case Key(k) => BytesAreShort(k);
      case PutString(Some(s)) => BytesAreShort(s);
      case _ =>
    }
  }

  // ----- Which write runs past the end -----

  lemma CrossesConcat(start: nat, a: seq<string>, b: seq<string>)
    ensures Crosses(start, a + b) <==> Crosses(start, a) || Crosses(start + |Concat(a)|, b)
  {
    var all, later := a + b, start + |Concat(a)|;
    forall k | 0 <= k < |a|
      ensures CrossesAt(start, all, k) == CrossesAt(start, a, k)
    {
      assert all[..k] == a[..k];
    }
    forall k | 0 <= k < |b|
      ensures CrossesAt(start, all, |a| + k) == CrossesAt(later, b, k)
    {
      assert all[..|a| + k] == a + b[..k];
      ConcatAppend(a, b[..k]);
    }
    CrossesEither(start, later, a, b);
  }

  lemma CrossesEither(start: nat, later: nat, a: seq<string>, b: seq<string>)
    requires forall k :: 0 <= k < |a| ==> CrossesAt(start, a + b, k) == CrossesAt(start, a, k)
    requires forall k :: 0 <= k < |b| ==> CrossesAt(start, a + b, |a| + k) == CrossesAt(later, b, k)
    ensures Crosses(start, a + b) <==> Crosses(start, a) || Crosses(later, b)
  {
    hide CrossesAt;
    var all := a + b;
    if k :| 0 <= k < |all| && CrossesAt(start, all, k) {
      if k >= |a| {
        assert CrossesAt(start, all, |a| + (k - |a|));
        assert CrossesAt(later, b, k - |a|);
      }
    }
    if k :| 0 <= k < |a| && CrossesAt(start, a, k) {
      assert CrossesAt(start, all, k);
    }
    if k :| 0 <= k < |b| && CrossesAt(later, b, k) {
      assert CrossesAt(start, all, |a| + k);
    }
  }

  lemma ShortNeverCrosses(start: nat, pieces: seq<string>)
    requires forall k :: 0 <= k < |pieces| ==> |pieces[k]| <= SIZE - LIMIT
    ensures !Crosses(start, pieces)
  {
  }

  /** Call `i` prints a numeral that starts, behind its comma, below the reply limit and
      runs past the end of the buffer. */
  predicate NumeralCrosses(w: Writer, ops: seq<Op>, i: nat)
    requires i < |ops|
  {
    var v := Run(w, ops[..i]).Separate();
    ops[i].PutInt? && |v.text| < LIMIT && |v.text| + |Signed(ops[i].n)| >= SIZE
  }

  lemma OpCrosses(w: Writer, op: Op)
    ensures Crosses(|w.text|, OpPieces(w.comma, op))
            <==> op.PutInt? && |w.Separate().text| < LIMIT && |w.Separate().text| + |Signed(op.n)| >= SIZE
  {
    if op.PutInt? {
      var separator := if w.comma then [","] else [];
      var numeral := [Signed(op.n)];
      CrossesConcat(|w.text|, separator, numeral);
      ShortNeverCrosses(|w.text|, separator);
      ConcatOne(",");
      NoPieces();
      var start := |w.text| + |Concat(separator)|;
      assert start == |w.Separate().text|;
      assert numeral[..0] == [];
      assert Crosses(start, numeral) <==> CrossesAt(start, numeral, 0);
    } else {
      OpPiecesAreShort(w.comma, op);
      ShortNeverCrosses(|w.text|, OpPieces(w.comma, op));
    }
  }

  /** The write that runs past the end is always a numeral. */
  lemma {:induction false} PiecesCross(w: Writer, ops: seq<Op>)
    ensures Crosses(|w.text|, Pieces(w, ops)) <==> exists i :: 0 <= i < |ops| && NumeralCrosses(w, ops, i)
    decreases ops
  {
    hide Crosses;
    hide OpPieces;
    hide Step;
    hide Concat;
    if ops == [] {
      ShortNeverCrosses(|w.text|, []);
    } else {
      var v, first := Step(w, ops[0]), OpPieces(w.comma, ops[0]);
      OpPiecesAre(w, ops[0]);
      OpCrosses(w, ops[0]);
      CrossesConcat(|w.text|, first, Pieces(v, ops[1..]));
      PiecesCross(v, ops[1..]);
      NumeralCrossesShift(w, ops);
    }
  }

  lemma NumeralCrossesShift(w: Writer, ops: seq<Op>)
    requires ops != []
    ensures (exists i :: 0 <= i < |ops| && NumeralCrosses(w, ops, i))
            <==> NumeralCrosses(w, ops, 0)
                 || exists i :: 0 <= i < |ops| - 1 && NumeralCrosses(Step(w, ops[0]), ops[1..], i)
    ensures NumeralCrosses(w, ops, 0)
            <==> ops[0].PutInt? && |w.Separate().text| < LIMIT
                 && |w.Separate().text| + |Signed(ops[0].n)| >= SIZE
  {
    hide Step;
    var v, later := Step(w, ops[0]), ops[1..];
    assert ops[..0] == [];
    forall i | 0 <= i < |later|
      ensures NumeralCrosses(v, later, i) == NumeralCrosses(w, ops, i + 1)
    {
      assert ops[..i + 1][0] == ops[0] && ops[..i + 1][1..] == later[..i];
    }
    if i :| 0 <= i < |ops| && NumeralCrosses(w, ops, i) {
      if i > 0 {
        assert NumeralCrosses(v, later, i - 1);
      }
    }
    if i :| 0 <= i < |ops| - 1 && NumeralCrosses(v, later, i) {
      assert NumeralCrosses(w, ops, i + 1);
    }
  }

  /** What is then kept: everything before that numeral. */
  lemma KeptBeforeNumeral(ops: seq<Op>, i: nat)
    requires i < |ops| && NumeralCrosses(BLANK, ops, i)
    ensures Hold(Pieces(BLANK, ops)) == Held(Run(BLANK, ops[..i]).Separate().text, true)
    ensures ops[i].PutInt? && |Hold(Pieces(BLANK, ops)).text| + |Signed(ops[i].n)| >= SIZE
  {
    hide Hold;
    hide Concat;
    hide Pieces;
    hide Run;
    hide Step;
    var a, b := ops[..i], ops[i..];
    assert ops == a + b && b[0] == ops[i];
    var v, p := Run(BLANK, a), Pieces(BLANK, a);
    PiecesAppend(BLANK, a, b);
    PiecesAre(BLANK, a);
    assert "" + Concat(p) == Concat(p);
    NumeralFirst(v, b);
    var separator := if v.comma then [","] else [];
    SeparatorText(p, v);
    var more := Pieces(Step(v, b[0]), b[1..]);
    Regroup(p, separator, Signed(ops[i].n), more);
    HoldStops(p + separator, Signed(ops[i].n), more);
  }

  lemma SeparatorText(p: seq<string>, v: Writer)
    requires v.text == Concat(p)
    ensures Concat(p + if v.comma then [","] else []) == v.Separate().text
  {
    hide Concat;
    ConcatAppend(p, if v.comma then [","] else []);
    ConcatOne(",");
    NoPieces();
  }

  lemma Regroup(p: seq<string>, separator: seq<string>, s: string, more: seq<string>)
    ensures p + (separator + [s] + more) == p + separator + [s] + more
  {
  }

  lemma NumeralFirst(v: Writer, ops: seq<Op>)
    requires ops != [] && ops[0].PutInt?
    ensures Pieces(v, ops)
         == (if v.comma then [","] else []) + [Signed(ops[0].n)] + Pieces(Step(v, ops[0]), ops[1..])
  {
  }

  /** What the snapshot buffer keeps of a finished document: all of it exactly if it
      fits with its NUL; otherwise a proper prefix, and one short enough for a reply if
      and only if a numeral that starts below the reply limit runs past the end. */
  lemma FinishedSnapshot(ops: seq<Op>, t: Json)
    requires Describes(ops, t)
    ensures var h := Hold(Pieces(BLANK, ops));
            && (h.error <==> |JsonText(t)| >= SIZE)
            && (!h.error ==> h.text == JsonText(t))
            && (h.error ==>
                  && h.text < JsonText(t) && (ShortNumerals(ops) ==> |h.text| >= LIMIT)
                  && (|h.text| < LIMIT <==> exists i :: 0 <= i < |ops| && NumeralCrosses(BLANK, ops, i)))
  {
    hide Concat;
    hide Pieces;
    FinishedText(ops, t);
    PiecesAre(BLANK, ops);
    var all := Concat(Pieces(BLANK, ops));
    assert "" + all == all;
    HoldIs(Pieces(BLANK, ops));
    if ShortNumerals(ops) {
      PiecesAreShort(BLANK, ops);
    }
    if |all| >= SIZE {
      HoldIsCutIff(Pieces(BLANK, ops));
      PiecesCross(BLANK, ops);
    }
  }

  lemma {:induction false} PiecesAppend(w: Writer, a: seq<Op>, b: seq<Op>)
    ensures Pieces(w, a + b) == Pieces(w, a) + Pieces(Run(w, a), b)
    decreases a
  {
    hide OpPieces;
    hide Step;
    if a == [] {
      assert a + b == b;
    } else {
      assert (a + b)[0] == a[0] && (a + b)[1..] == a[1..] + b;
      PiecesAppend(Step(w, a[0]), a[1..], b);
    }
  }

  /** Such documents exist: a string of the right length and a numeral of more than 16
      bytes behind it. */
  lemma LongNumeralCut(pad: string, n: int)
    requires |EscapeString(pad)| == LIMIT - 5 && |Signed(n)| > SIZE - LIMIT
    ensures var t := Arr([Str(pad), Int(n)]);
            var h := Hold(Pieces(BLANK, Calls(t)));
            h.error && h.text == "[" + QuotedString(pad) + "," && |h.text| < LIMIT
  {
    hide Hold;
    hide Pieces;
    hide Run;
    PadCalls(pad, n);
    PadWriter(pad);
    var ops := Calls(Arr([Str(pad), Int(n)]));
    assert ops[..2] == [ArrayStart, PutString(Some(pad))];
    assert NumeralCrosses(BLANK, ops, 2);
    KeptBeforeNumeral(ops, 2);
  }

  lemma PadCalls(pad: string, n: int)
    ensures !HasReal(Arr([Str(pad), Int(n)]))
    ensures Calls(Arr([Str(pad), Int(n)])) == [ArrayStart, PutString(Some(pad))] + [PutInt(n), ArrayEnd]
  {
    var items := [Str(pad), Int(n)];
    assert items[1..] == [Int(n)] && items[1..][1..] == [];
    assert ItemCalls(items[1..]) == [PutInt(n)] + ItemCalls([]);
    assert ItemCalls(items) == [PutString(Some(pad))] + [PutInt(n)];
  }

  lemma PadWriter(pad: string)
    ensures Run(BLANK, [ArrayStart, PutString(Some(pad))]) == Writer("[" + QuotedString(pad), 1, true)
  {
    hide QuotedString;
    var v := Writer("[", 1, false);
    RunTwo(BLANK, ArrayStart, PutString(Some(pad)));
    assert Step(BLANK, ArrayStart) == v by { assert "" + "" + "[" == "["; }
    assert v.text + "" == v.text;
  }
}
