/** The request and reply protocol between the command-line client and the daemon
    (ipc_server.c, client.c, protocol.h), and the way of one value from the daemon's
    builder to the client's field lookup. */
module Ipc {
  import opened Text
  import opened JsonTree
  import opened JsonFormat
  import opened JsonWriter
  import opened JsonParser
  import opened JsonBuffer
  import opened JsonKeys
  import opened JsonSearch
  import opened JsonClient
  import opened SharedSnapshot
  import opened SnapshotPieces

  const MSG_MAX_SIZE: nat := 262144
  const HEADER_SIZE: nat := 16
  const MAGIC: int := 0x514D454D
  const VERSION: int := 1

  const REQ_STATUS: int := 1
  const REQ_SNAPSHOT: int := 2
  const REQ_HISTORY: int := 3
  const REQ_SERVICES: int := 6

  datatype Header = Header(magic: int, version: int, kind: int, length: nat, seqNo: int)

  datatype Message = Message(header: Header, payload: string)

  /** The C strings the daemon's callbacks return, None for a missing callback or a
      null pointer. */
  datatype Sources = Sources(snapshot: Option<string>, history: Option<string>)

  /** A string is passed on whole if it fits the reply with its NUL. */
  function Passed(source: Option<string>): string {
    match source
    case Some(s) => if |s| < MSG_MAX_SIZE - HEADER_SIZE then s else ""
    case None => ""
  }

  function ReplyPayload(kind: int, from: Sources): string {
    if kind == REQ_STATUS || kind == REQ_SNAPSHOT then Passed(from.snapshot)
    else if kind == REQ_HISTORY then Passed(from.history)
    else if kind == REQ_SERVICES then JsonText(Obj([Member("status", Str("ok"))]))
    else JsonText(Obj([Member("error", Str("unknown request"))]))
  }

  /** Which source answers which request, and what is sent instead of one that is missing
      or too long: status (1) and snapshot (2) requests get the snapshot, history requests
      (3) the history. */
  lemma ReplyIs(kind: int, from: Sources)
    ensures kind == 1 || kind == 2 ==>
              ReplyPayload(kind, from)
              == match from.snapshot { case Some(s) => if |s| < 262128 then s else "" case None => "" }
    ensures kind == 3 ==>
              ReplyPayload(kind, from)
              == match from.history { case Some(s) => if |s| < 262128 then s else "" case None => "" }
  {
    hide JsonText;
  }

  /** All other requests get one of two fixed texts. */
  lemma OtherReplies(kind: int, from: Sources)
    requires kind !in {1, 2, 3}
    ensures kind == 6 ==> ReplyPayload(kind, from) == "{\"status\":\"ok\"}"
    ensures kind != 6 ==> ReplyPayload(kind, from) == "{\"error\":\"unknown request\"}"
  {
    hide JsonText;
    if kind == 6 {
      StatusText();
    } else {
      ErrorText();
    }
  }

  lemma StatusText()
    ensures JsonText(Obj([Member("status", Str("ok"))])) == "{\"status\":\"ok\"}"
  {
    hide *;
    OneMemberText("status", "ok");
    PlainKey("status");
    PlainKey("ok");
  }

  lemma ErrorText()
    ensures JsonText(Obj([Member("error", Str("unknown request"))])) == "{\"error\":\"unknown request\"}"
  {
    hide JsonText;
    hide QuotedKey;
    hide QuotedString;
    OneMemberText("error", "unknown request");
    ErrorKey();
    ErrorString();
  }

  lemma ErrorKey()
    ensures QuotedKey("error") == "\"error\":"
  {
    hide *;
    PlainKey("error");
  }

  lemma ErrorString()
    ensures QuotedString("unknown request") == "\"unknown request\""
  {
    hide *;
    PlainKey("unknown request");
  }

  lemma OneMemberText(key: string, text: string)
    ensures JsonText(Obj([Member(key, Str(text))])) == "{" + (QuotedKey(key) + QuotedString(text)) + "}"
  {
    hide QuotedKey;
    hide QuotedString;
    var m := Member(key, Str(text));
    assert MembersText([m]) == MemberText(m);
    assert JsonText(Str(text)) == QuotedString(text);
  }

  lemma SmallReply(key: string, text: string)
    ensures Run(BLANK, [ObjectStart, Key(key), PutString(Some(text)), ObjectEnd]).text
         == JsonText(Obj([Member(key, Str(text))]))
  {
    var m := Member(key, Str(text));
    assert !MemberHasReal(m);
    assert [m][1..] == [] && MemberCalls([m][1..]) == [];
    assert MemberCalls([m]) == [Key(key)] + [PutString(Some(text))];
    assert Calls(Obj([m])) == [ObjectStart, Key(key), PutString(Some(text)), ObjectEnd];
    CallsWriteText(Obj([m]));
  }

  /** The one-member documents that need no source. */
  method PutReply(json: JsonBuilder, key: string, text: string)
    requires json.Valid() && json.State() == BLANK
    modifies json, json.buf
    ensures json.Valid() && json.text == JsonText(Obj([Member(key, Str(text))]))
  {
    hide JsonText;
    hide Run;
    json.StartObject();
    json.KeyText(key, Some(text));
    json.EndObject();
    SmallCalls(key, text);
    SmallReply(key, text);
  }

  /** The switch and the sending in handle_client: None where the magic is wrong. */
  method HandleClient(request: Header, from: Sources) returns (reply: Option<Message>)
    ensures reply.None? <==> request.magic != 0x514D454D
    ensures reply.Some? ==>
              && reply.value.payload == ReplyPayload(request.kind, from)
              && reply.value.header
                 == Header(0x514D454D, 1, request.kind, |reply.value.payload|, request.seqNo)
              && |reply.value.payload| < MSG_MAX_SIZE - HEADER_SIZE
  {
    hide JsonText;
    if request.magic != MAGIC { return None; }
    var response := new char[MSG_MAX_SIZE - HEADER_SIZE](_ => '\0');
    var json := new JsonBuilder(response, MSG_MAX_SIZE - HEADER_SIZE);
    var pos := 0;
    if request.kind == REQ_STATUS || request.kind == REQ_SNAPSHOT {
      pos := CopySource(from.snapshot, response);
    } else if request.kind == REQ_HISTORY {
      pos := CopySource(from.history, response);
    } else {
      SmallLength();
      if request.kind == REQ_SERVICES {
        PutReply(json, "status", "ok");
      } else {
        PutReply(json, "error", "unknown request");
      }
      pos := json.Length();
    }
    var payload := response[..pos];
    reply := Some(Message(Header(MAGIC, VERSION, request.kind, pos, request.seqNo), payload));
  }

  lemma SmallCalls(key: string, text: string)
    ensures Step(Run(Step(BLANK, ObjectStart), [Key(key), PutString(Some(text))]), ObjectEnd)
         == Run(BLANK, [ObjectStart, Key(key), PutString(Some(text)), ObjectEnd])
  {
    var ops := [ObjectStart, Key(key), PutString(Some(text)), ObjectEnd];
    assert ops[1..] == [Key(key), PutString(Some(text))] + [ObjectEnd];
    RunAppend(Step(BLANK, ObjectStart), [Key(key), PutString(Some(text))], [ObjectEnd]);
    assert [ObjectEnd][1..] == [];
    var w := Run(Step(BLANK, ObjectStart), [Key(key), PutString(Some(text))]);
    assert Run(w, [ObjectEnd]) == Run(Step(w, ObjectEnd), []);
  }

  lemma SmallLength()
    ensures |JsonText(Obj([Member("status", Str("ok"))]))| < 200
    ensures |JsonText(Obj([Member("error", Str("unknown request"))]))| < 200
  {
    hide JsonText;
    ShortMemberText("status", "ok");
    ShortMemberText("error", "unknown request");
  }

  lemma {:induction false} EscapeBound(s: string)
    ensures |EscapeString(s)| <= 6 * |s| && |EscapeKey(s)| <= 6 * |s|
  {
    if s != "" {
      EscapeBound(s[1..]);
    }
  }

  lemma ShortMemberText(key: string, text: string)
    requires |key| <= 6 && |text| <= 15
    ensures |JsonText(Obj([Member(key, Str(text))]))| <= 6 * (|key| + |text|) + 7
  {
    EscapeBound(key);
    EscapeBound(text);
    var m := Member(key, Str(text));
    assert MembersText([m]) == MemberText(m);
    assert JsonText(Str(text)) == QuotedString(text);
  }

  /** strlen, the length check and the memcpy of a reply. */
  method CopySource(source: Option<string>, response: array<char>) returns (pos: nat)
    requires response.Length == MSG_MAX_SIZE - HEADER_SIZE
    modifies response
    ensures pos <= response.Length && response[..pos] == Passed(source)
  {
    pos := 0;
    if source.Some? {
      var len := |source.value|;
      if len < response.Length {
        forall i | 0 <= i < len {
          response[i] := source.value[i];
        }
        pos := len;
      }
    }
  }

  /** client_request after the request was sent, with do_request's buffer: None for
      a bad header, otherwise the C string the client works with. */
  method ReceiveReply(reply: Message) returns (text: Option<string>)
    ensures text.None? <==> reply.header.magic != MAGIC
    ensures text.Some? && reply.header.length == |reply.payload| < MSG_MAX_SIZE ==>
              text.value == CString(reply.payload)
  {
    if reply.header.magic != MAGIC { return None; }
    var response := new char[MSG_MAX_SIZE](_ => '\0');
    var toRead := reply.header.length;
    if toRead >= response.Length {
      toRead := response.Length - 1;
    }
    var n := Min(toRead, |reply.payload|);
    forall i | 0 <= i < n {
      response[i] := reply.payload[i];
    }
    response[n] := '\0';
    assert response[..n] == reply.payload[..n];
    CStringOfCopy(response[..], reply.payload[..n]);
    text := Some(CString(response[..]));
    assert n == |reply.payload| ==> reply.payload[..n] == reply.payload;
  }

  lemma CStringOfCopy(buf: seq<char>, s: string)
    requires |s| < |buf| && buf[..|s|] == s && buf[|s|] == '\0'
    ensures CString(buf) == CString(s)
  {
    match StrChr(s, '\0') {
      case Some(k) =>
        assert buf[..k] == s[..k] && buf[k] == s[k];
        StrChrIs(buf, '\0', k);
      case None =>
        StrChrIs(buf, '\0', |s|);
    }
  }

  /** A request, answered and received: the client holds the source's C string whole,
      never cut by its own buffer, or nothing where the source is missing or too long
      for a reply; the other source has no say. */
  method Request(kind: int, from: Sources) returns (text: string)
    ensures text == CString(ReplyPayload(kind, from))
    ensures kind == 1 || kind == 2 ==>
              text == match from.snapshot { case Some(s) => if |s| < 262128 then CString(s) else "" case None => "" }
    ensures kind == 3 ==>
              text == match from.history { case Some(s) => if |s| < 262128 then CString(s) else "" case None => "" }
    ensures kind == 6 ==> text == "{\"status\":\"ok\"}"
    ensures kind !in {1, 2, 3, 6} ==> text == "{\"error\":\"unknown request\"}"
  {
    hide ReplyPayload;
    hide CString;
    var reply := HandleClient(Header(MAGIC, VERSION, kind, 0, 0), from);
    var received := ReceiveReply(reply.value);
    text := received.value;
    WholeString("");
    if kind in {1, 2, 3} {
      ReplyIs(kind, from);
    } else {
      OtherReplies(kind, from);
      WholeString(ReplyPayload(kind, from));
    }
  }

  lemma WholeString(s: string)
    requires '\0' !in s
    ensures CString(s) == s
  {
  }

  // ----- From the builder to the client -----

  lemma {:induction false} NoNulInEscapes(s: string)
    ensures '\0' !in EscapeString(s)
  {
    if s != "" {
      NoNulInEscapes(s[1..]);
      assert '\0' !in EscapeChar(s[0]);
    }
  }

  lemma SignedHasNoNul(n: int)
    ensures '\0' !in Signed(n)
  {
    assert '\0' !in Decimal(if n < 0 then -n else n);
  }

  lemma {:induction false} NoNulInText(t: Json)
    requires IdentifierKeys(t)
    ensures '\0' !in JsonText(t)
    decreases t
  {
    match t {
      case Str(s) => NoNulInEscapes(s);
      case Int(n) => SignedHasNoNul(n);
      case Real(m, e) => SignedHasNoNul(m); SignedHasNoNul(e);
      case Arr(items) => NoNulInItems(items);
      case Obj(members) => NoNulInMembers(members);
      case _ =>
    }
  }

  lemma {:induction false} NoNulInItems(items: seq<Json>)
    requires forall i :: 0 <= i < |items| ==> IdentifierKeys(items[i])
    ensures '\0' !in ItemsText(items)
    decreases items
  {
    if items != [] {
      NoNulInText(items[0]);
      NoNulInItems(items[1..]);
    }
  }

  lemma {:induction false} NoNulInMembers(members: seq<Member>)
    requires forall i :: 0 <= i < |members| ==> IdentifierMember(members[i])
    ensures '\0' !in MembersText(members)
    decreases members
  {
    if members != [] {
      var m := members[0];
      assert IdentifierMember(m);
      IdentifierUnescaped(m.key);
      NoNulInText(m.value);
      assert '\0' !in MemberText(m);
      NoNulInMembers(members[1..]);
    }
  }

  lemma PrefixHasNoNul(s: string, t: string)
    requires s <= t && '\0' !in t
    ensures '\0' !in s && CString(s) == s
  {
    assert forall k :: 0 <= k < |s| ==> s[k] == t[k];
  }

  /** The whole way, for every value with identifier keys, from a zeroed daemon through
      any interleaving: if the collector has made the calls that describe the value and
      rests while a reader serves a request, the bytes sent, taken as a C string by the
      client, are what the buffer holds of the document, or empty when that is too long
      for a reply. A document that fits parses back to the value and yields, along any
      chain of sections, the integer the structure has there; a longer one arrives cut
      off if and only if it overflows the snapshot buffer at a numeral that starts below
      the reply limit, and as nothing otherwise. */
  lemma EndToEnd(start: System, writing: seq<Action>, reading: seq<Action>, r: nat, ops: seq<Op>, t: Json,
                 path: seq<string>, key: string)
    requires Initial(start) && Possible(start, writing)
    requires PiecesAfter([], writing) == Pieces(BLANK, ops)
    requires Describes(ops, t)
    requires var y := After(start, writing);
             && y.collector.step == Idle && r < |y.readers| && y.readers[r] == Resting
             && Possible(y, reading) && forall k :: 0 <= k < |reading| ==> IsReaderAction(reading[k])
    requires IdentifierKeys(t) && GoodPath(path + [key]) && |key| <= SEARCH_MAX - 3
    ensures var z := After(After(start, writing), reading);
            && r < |z.readers|
            && (z.readers[r].Sent? ==>
                  var text, held := CString(z.readers[r].payload), Hold(Pieces(BLANK, ops)).text;
                  && text == (if |held| < 262128 then held else "")
                  && (|JsonText(t)| < 262128 ==> Reads(text, t, path, key))
                  && (|JsonText(t)| >= 262128 ==> text < JsonText(t))
                  && (|JsonText(t)| >= 262128 && ShortNumerals(ops) ==> text == "")
                  && (|JsonText(t)| >= 262128 && (forall k :: 0 <= k < |ops| ==> InRange(ops[k])) ==>
                        (text != "" <==> exists k :: CutBy(ops, k, |JsonText(t)|))))
  {
    hide Hold;
    hide Pieces;
    hide JsonText;
    hide Parse;
    hide Seek;
    hide Descend;
    hide Reads;
    var y := After(start, writing);
    InitiallySafe(start);
    assert InStep(start.collector, []) by { NothingHeld(); }
    RunSafe(start, writing);
    RunInStep(start, writing, []);
    FinishedSnapshot(ops, t);
    var held := Hold(Pieces(BLANK, ops));
    assert y.collector.text == held.text;
    NoNulInText(t);
    PrefixHasNoNul(held.text, JsonText(t));
    QuietRead(y, reading, r);
    if |JsonText(t)| < LIMIT {
      ClientReads(t, path, key);
    } else {
      CutIff(ops, t);
    }
    assert CString("") == "";
  }

  /** The document overflows the snapshot buffer at the numeral of call `k`, which starts
      below the reply limit. */
  ghost predicate CutBy(ops: seq<Op>, k: int, length: nat) {
    length >= SIZE && 0 <= k < |ops| && NumeralCrosses(BLANK, ops, k)
  }

  lemma NumberInRange(op: Op)
    requires op.PutInt? && InRange(op)
    ensures INT64_MIN <= op.n <= UINT64_MAX
  {
  }

  lemma CutIff(ops: seq<Op>, t: Json)
    requires Describes(ops, t) && |JsonText(t)| >= LIMIT
    ensures (forall k :: 0 <= k < |ops| ==> InRange(ops[k])) ==>
              var held := Hold(Pieces(BLANK, ops)).text;
              (|held| < LIMIT && held != "" <==> exists k :: CutBy(ops, k, |JsonText(t)|))
  {
    hide Hold;
    hide Pieces;
    hide JsonText;
    hide NumeralCrosses;
    hide InRange;
    FinishedSnapshot(ops, t);
    var held := Hold(Pieces(BLANK, ops)).text;
    if k :| CutBy(ops, k, |JsonText(t)|) {
      if InRange(ops[k]) {
        KeptBeforeNumeral(ops, k);
        NumberInRange(ops[k]);
        NumeralFits(ops[k].n);
      }
    }
    if |held| < LIMIT {
      var k :| 0 <= k < |ops| && NumeralCrosses(BLANK, ops, k);
      assert CutBy(ops, k, |JsonText(t)|);
    }
  }

  lemma NothingHeld()
    ensures Hold([]) == Held("", false)
  {
  }

  /** What the client gets out of a text: the value itself, and the integers of its
      nested members. */
  ghost predicate Reads(text: string, t: Json, path: seq<string>, key: string) {
    && Parse(text) == Some(t)
    && (Descend(t, path + [key]).Some? ==>
          && Seek(text, path).Some?
          && GetInt(Seek(text, path).value, key) == IntegerOf(Descend(t, path + [key])))
  }

  lemma ClientReads(t: Json, path: seq<string>, key: string)
    requires IdentifierKeys(t) && GoodPath(path + [key]) && |key| <= SEARCH_MAX - 3
    ensures Reads(JsonText(t), t, path, key)
  {
    hide JsonText;
    hide Seek;
    hide Descend;
    hide GetInt;
    IdentifierKeysPrintable(t);
    RoundTrip(t);
    if Descend(t, path + [key]).Some? {
      PathIsDescent(t, path, key);
    }
  }

  lemma {:induction false} IdentifierKeysPrintable(t: Json)
    requires IdentifierKeys(t)
    ensures PrintableKeys(t)
    decreases t
  {
    match t {
      case Arr(items) =>
        forall i | 0 <= i < |items|
          ensures PrintableKeys(items[i])
        {
          IdentifierKeysPrintable(items[i]);
        }
      case Obj(members) =>
        forall i | 0 <= i < |members|
          ensures PrintableMember(members[i])
        {
          assert IdentifierMember(members[i]);
          IdentifierKeysPrintable(members[i].value);
        }
      case _ =>
    }
  }
}
