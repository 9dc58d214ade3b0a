/** Reading /proc/<pid>/stat (parse_pid_stat in cpuload.c): the command may hold
    spaces and parentheses, so the fields are counted from the last `)`. */
module StatLine {
  import opened Sequences
  import opened Text

  /** The buffer the file is read into, with its NUL. */
  const BUFFER_SIZE: nat := 1024

  /** proc_read_file: as much of the file as the buffer takes. */
  function ReadInto(file: string): string {
    file[..Min(|file|, BUFFER_SIZE - 1)]
  }

  datatype Stat = Stat(cmd: string, utime: int, stime: int)

  /** strtoul(s, NULL, 10) of a text whose digits carry no minus sign. */
  function StrToUL(s: string): int {
    Clamp(ReadInteger(s), 0, UINT64_MAX)
  }

  // ----- What the kernel prints -----

  /** A field behind the command: not empty, no white space, no parenthesis. */
  predicate IsField(f: string) {
    f != "" && forall i :: 0 <= i < |f| ==> !IsSpace(f[i]) && f[i] != ')'
  }

  function Join(fields: seq<string>): string {
    if fields == [] then ""
    else if |fields| == 1 then fields[0]
    else fields[0] + " " + Join(fields[1..])
  }

  /** pid (comm) field3 field4 ... */
  function Front(pid: nat, comm: string, fields: seq<string>): string {
    Decimal(pid) + " (" + comm + ") " + Join(fields)
  }

  function Line(pid: nat, comm: string, fields: seq<string>): string {
    Front(pid, comm, fields) + "\n"
  }

  // ----- What the parser does -----

  function SkipWord(s: string): (r: string)
    ensures |r| <= |s|
  {
    if s != "" && !IsSpace(s[0]) then SkipWord(s[1..]) else s
  }

  /** Skip `n` words and the white space behind each. */
  function SkipFields(s: string, n: nat): string
    decreases n
  {
    if n == 0 || s == "" then s else SkipFields(SkipSpace(SkipWord(s)), n - 1)
  }

  /** The digits strtoul consumes, with the white space and sign before them. */
  function AfterNumber(s: string): string {
    var t := SkipSpace(s);
    var d := if t != "" && (t[0] == '-' || t[0] == '+') then t[1..] else t;
    if DigitRun(d) == 0 then s else d[DigitRun(d)..]
  }

  /** parse_pid_stat on the text of the file: None where a parenthesis is missing. */
  function ParseStat(buf: string, cmdSize: nat): Option<Stat>
    requires cmdSize > 0
    requires StrChr(buf, '(').Some? && StrRChr(buf, ')').Some? ==>
               StrChr(buf, '(').value < StrRChr(buf, ')').value <= |buf| - 2
  {
    match (StrChr(buf, '('), StrRChr(buf, ')'))
    case (Some(open), Some(close)) =>
      var comm := buf[open + 1..close];
      var p := SkipFields(buf[close + 2..], 11);
      Some(Stat(comm[..Min(|comm|, cmdSize - 1)], StrToUL(p), StrToUL(SkipSpace(AfterNumber(p)))))
    case _ => None
  }

  /** The loop that leaves the cursor at field 14. */
  method SkipToField14(start: string) returns (p: string)
    ensures p == SkipFields(start, 11)
  {
    p := start;
    var field := 3;
    while p != "" && field < 14
      invariant 3 <= field <= 14 && SkipFields(p, 14 - field) == SkipFields(start, 11)
      decreases 14 - field
    {
      ghost var q := p;
      while p != "" && !IsSpace(p[0])
        invariant SkipWord(p) == SkipWord(q)
        decreases |p|
      {
        p := p[1..];
      }
      assert p == SkipWord(q);
      while p != "" && IsSpace(p[0])
        invariant SkipSpace(p) == SkipSpace(SkipWord(q))
        decreases |p|
      {
        p := p[1..];
      }
      field := field + 1;
    }
  }

  /** parse_pid_stat with its cursor loops. The line the kernel writes has its last
      `)` behind its first `(` and at least one byte after it; the C code reads past
      the text otherwise. */
  method ParsePidStat(buf: string, cmdSize: nat) returns (r: Option<Stat>)
    requires cmdSize > 0
    requires StrChr(buf, '(').Some? && StrRChr(buf, ')').Some? ==>
               StrChr(buf, '(').value < StrRChr(buf, ')').value <= |buf| - 2
    ensures r == ParseStat(buf, cmdSize)
  {
    hide StrToUL;
    hide AfterNumber;
    hide SkipFields;
    var open := StrChr(buf, '(');
    var close := StrRChr(buf, ')');
    if open.None? || close.None? { return None; }
    var commLen := close.value - open.value - 1;
    if commLen >= cmdSize {
      commLen := cmdSize - 1;
    }
    var cmd := buf[open.value + 1..open.value + 1 + commLen];
    assert cmd == buf[open.value + 1..close.value][..commLen];
    var p := SkipToField14(buf[close.value + 2..]);
    var utime := StrToUL(p);
    p := AfterNumber(p);
    ghost var q := p;
    while p != "" && IsSpace(p[0])
      invariant SkipSpace(p) == SkipSpace(q)
      decreases |p|
    {
      p := p[1..];
    }
    r := Some(Stat(cmd, utime, StrToUL(p)));
  }

  // ----- Parsing undoes printing -----

  lemma {:induction false} SkipWordOver(f: string, rest: string)
    requires forall i :: 0 <= i < |f| ==> !IsSpace(f[i])
    requires rest == "" || IsSpace(rest[0])
    ensures SkipWord(f + rest) == rest
  {
    if f == "" {
      assert f + rest == rest;
    } else {
      assert (f + rest)[1..] == f[1..] + rest;
      SkipWordOver(f[1..], rest);
    }
  }

  lemma JoinFirst(fields: seq<string>)
    requires |fields| > 1
    ensures Join(fields) == fields[0] + (" " + Join(fields[1..]))
  {
    Assoc(fields[0], " ", Join(fields[1..]));
  }

  lemma {:induction false} JoinStarts(fields: seq<string>)
    requires fields != [] && IsField(fields[0])
    ensures Join(fields) != "" && Join(fields)[0] == fields[0][0]
  {
  }

  /** Skipping n fields of a joined list leaves the rest of the list. */
  lemma {:induction false} SkipFieldsOver(fields: seq<string>, n: nat, end: string)
    requires n < |fields| && forall i :: 0 <= i < |fields| ==> IsField(fields[i])
    ensures SkipFields(Join(fields) + end, n) == Join(fields[n..]) + end
    decreases n
  {
    if n == 0 {
      assert fields[0..] == fields;
    } else {
      JoinFirst(fields);
      var tail := Join(fields[1..]) + end;
      assert Join(fields) + end == fields[0] + ([' '] + tail);
      assert fields[0] + ([' '] + tail) != "";
      SkipWordOver(fields[0], [' '] + tail);
      assert ([' '] + tail)[1..] == tail;
      JoinStarts(fields[1..]);
      assert tail[0] == fields[1][0] && SkipSpace(tail) == tail;
      assert SkipSpace([' '] + tail) == tail;
      SkipFieldsOver(fields[1..], n - 1, end);
      assert fields[1..][n - 1..] == fields[n..];
    }
  }

  lemma {:induction false} NoParenInJoin(fields: seq<string>)
    requires forall i :: 0 <= i < |fields| ==> IsField(fields[i])
    ensures ')' !in Join(fields)
  {
    if |fields| > 1 {
      NoParenInJoin(fields[1..]);
    }
  }

  lemma {:induction false} StrRChrIs(text: string, c: char, k: nat)
    requires k < |text| && text[k] == c && c !in text[k + 1..]
    ensures StrRChr(text, c) == Some(k)
  {
    var n := |text| - 1;
    if k < n {
      assert text[n] == text[k + 1..][n - k - 1];
      assert text[..n][k + 1..] == text[k + 1..][..n - k - 1];
      StrRChrIs(text[..n], c, k);
    }
  }

  /** Where the parentheses are found, whatever the command holds. */
  lemma FirstParen(head: string, rest: string)
    requires '(' !in head
    ensures StrChr(head + "(" + rest, '(') == Some(|head|)
  {
    hide StrChr;
    SplitAt(head, '(', rest);
    StrChrIs(head + "(" + rest, '(', |head|);
  }

  lemma LastParen(front: string, tail: string)
    requires ')' !in tail
    ensures var line := front + ")" + tail;
            && |line| == |front| + 1 + |tail| && StrRChr(line, ')') == Some(|front|) && line[|front| + 1..] == tail
  {
    hide StrRChr;
    SplitAt(front, ')', tail);
    StrRChrIs(front + ")" + tail, ')', |front|);
  }

  lemma ParensOf(head: string, comm: string, tail: string)
    requires '(' !in head && ')' !in tail
    ensures var line := head + "(" + comm + ")" + tail;
            && |line| == |head| + |comm| + |tail| + 2
            && StrChr(line, '(') == Some(|head|)
            && StrRChr(line, ')') == Some(|head| + 1 + |comm|)
            && line[|head| + 1..|head| + 1 + |comm|] == comm
            && line[|head| + 1 + |comm| + 1..] == tail
  {
    hide *;
    var front := head + "(" + comm;
    assert |front| == |head| + 1 + |comm|;
    LastParen(front, tail);
    assert front + ")" + tail == head + "(" + (comm + ")" + tail) by {
      Assoc(head + "(", comm, ")" + tail);
      Assoc(head + "(" + comm, ")", tail);
      Assoc(comm, ")", tail);
    }
    FirstParen(head, comm + ")" + tail);
    Assoc(front, ")", tail);
    SliceMiddle(head + "(", comm, ")" + tail);
  }

  lemma ParseStatIs(line: string, open: nat, close: nat, cmdSize: nat)
    requires cmdSize > 0 && open < close <= |line| - 2
    requires StrChr(line, '(') == Some(open) && StrRChr(line, ')') == Some(close)
    ensures var comm, p := line[open + 1..close], SkipFields(line[close + 2..], 11);
            ParseStat(line, cmdSize)
            == Some(Stat(comm[..Min(|comm|, cmdSize - 1)], StrToUL(p), StrToUL(SkipSpace(AfterNumber(p)))))
  {
    hide StrChr;
    hide StrRChr;
    hide SkipFields;
    hide StrToUL;
    hide AfterNumber;
    hide SkipSpace;
  }

  lemma NumberThenMore(n: nat, more: string)
    requires n <= UINT64_MAX && (more == "" || IsSpace(more[0]))
    ensures StrToUL(Decimal(n) + more) == n && AfterNumber(Decimal(n) + more) == more
  {
    var s := Decimal(n) + more;
    ReadDecimal(n, more);
    DigitRunIs(Decimal(n), more);
    assert s[0] == Decimal(n)[0] && SkipSpace(s) == s;
    assert s[|Decimal(n)|..] == more;
  }

  /** Fields 14 and 15 from the text behind the command, whatever white space or end
      comes after them. */
  lemma FieldsParse(fields: seq<string>, utime: nat, stime: nat, end: string)
    requires |fields| == 13 && forall i :: 0 <= i < |fields| ==> IsField(fields[i])
    requires fields[11] == Decimal(utime) && fields[12] == Decimal(stime)
    requires utime <= UINT64_MAX && stime <= UINT64_MAX && (end == "" || IsSpace(end[0]))
    ensures var p := SkipFields(Join(fields) + end, 11);
            StrToUL(p) == utime && StrToUL(SkipSpace(AfterNumber(p))) == stime
  {
    hide StrToUL;
    hide AfterNumber;
    hide SkipFields;
    SkipFieldsOver(fields, 11, end);
    assert fields[11..] == [Decimal(utime), Decimal(stime)];
    var last := Decimal(stime) + end;
    LastTwo(utime, stime, end);
    NumberThenMore(utime, [' '] + last);
    HeadTail(' ', last);
    assert last[0] == Decimal(stime)[0];
    assert SkipSpace([' '] + last) == SkipSpace(last) == last;
    NumberThenMore(stime, end);
  }

  lemma LastTwo(utime: nat, stime: nat, end: string)
    ensures Join([Decimal(utime), Decimal(stime)]) + end == Decimal(utime) + ([' '] + (Decimal(stime) + end))
  {
    var fields := [Decimal(utime), Decimal(stime)];
    assert fields[1..] == [Decimal(stime)];
    JoinFirst(fields);
    Assoc(Decimal(utime), " " + Decimal(stime), end);
    Assoc(" ", Decimal(stime), end);
  }

  lemma {:induction false} JoinSplit(fields: seq<string>, n: nat)
    requires 0 < n <= |fields|
    ensures Join(fields) == Join(fields[..n]) + if n == |fields| then "" else " " + Join(fields[n..])
  {
    if n == |fields| {
      assert fields[..n] == fields;
    } else if n == 1 {
      assert fields[..1] == [fields[0]];
      JoinFirst(fields);
    } else {
      JoinFirst(fields);
      JoinSplit(fields[1..], n - 1);
      assert fields[1..][n - 1..] == fields[n..] && fields[1..][..n - 1] == fields[1..n];
      JoinFirst(fields[..n]);
      assert fields[..n][1..] == fields[1..n];
      Assoc(" ", Join(fields[1..n]), " " + Join(fields[n..]));
      Assoc(fields[0], " " + Join(fields[1..n]), " " + Join(fields[n..]));
    }
  }

  /** What the buffer gets of a line whose first 15 fields it can take: those fields,
      and then white space or nothing. */
  lemma ReadLine(pid: nat, comm: string, fields: seq<string>) returns (end: string)
    requires |fields| >= 13 && forall i :: 0 <= i < |fields| ==> IsField(fields[i])
    requires |Front(pid, comm, fields[..13])| < BUFFER_SIZE
    ensures ReadInto(Line(pid, comm, fields)) == Front(pid, comm, fields[..13]) + end
    ensures (end == "" || IsSpace(end[0])) && ')' !in end
  {
    hide Join;
    var front := Front(pid, comm, fields[..13]);
    var more := if |fields| == 13 then "" else " " + Join(fields[13..]);
    var head := Decimal(pid) + " (" + comm + ") ";
    JoinSplit(fields, 13);
    Assoc(head, Join(fields[..13]), more);
    Assoc(front, more, "\n");
    var rest := more + "\n";
    assert Line(pid, comm, fields) == front + rest;
    NoParenInJoin(fields[13..]);
    var k := Min(|rest|, BUFFER_SIZE - 1 - |front|);
    end := rest[..k];
    assert (front + rest)[..|front| + k] == front + end;
  }

  /** For any pid, any command - spaces and parentheses included - and any list of
      at least 13 fields whose 12th and 13th are numbers, reading the printed line and
      parsing it gives the command, cut to the caller's buffer, and fields 14 and 15. The
      line may be of any length as long as the read buffer takes it up to field 15. */
  lemma ParsingUndoesPrinting(pid: nat, comm: string, fields: seq<string>, utime: nat, stime: nat, cmdSize: nat)
    requires |fields| >= 13 && forall i :: 0 <= i < |fields| ==> IsField(fields[i])
    requires fields[11] == Decimal(utime) && fields[12] == Decimal(stime)
    requires utime <= UINT64_MAX && stime <= UINT64_MAX && cmdSize > 0
    requires |Front(pid, comm, fields[..13])| < BUFFER_SIZE
    ensures var buf := ReadInto(Line(pid, comm, fields));
            && StrChr(buf, '(').Some? && StrRChr(buf, ')').Some?
            && StrChr(buf, '(').value < StrRChr(buf, ')').value <= |buf| - 2
            && ParseStat(buf, cmdSize) == Some(Stat(comm[..Min(|comm|, cmdSize - 1)], utime, stime))
  {
    hide StrChr;
    hide StrRChr;
    hide ParseStat;
    hide Line;
    hide Front;
    hide SkipFields;
    hide AfterNumber;
    hide StrToUL;
    hide SkipSpace;
    hide Join;
    var end := ReadLine(pid, comm, fields);
    var taken := fields[..13];
    var rest := Join(taken) + end;
    var head, tail := Decimal(pid) + " ", " " + rest;
    NoParenInJoin(taken);
    FrontIs(pid, comm, taken, end);
    var buf := ReadInto(Line(pid, comm, fields));
    ParensOf(head, comm, tail);
    var close := |head| + 1 + |comm|;
    TailOfTail(buf, close + 1, rest);
    FieldsParse(taken, utime, stime, end);
    ParseStatIs(buf, |head|, close, cmdSize);
  }

  lemma TailOfTail(line: string, k: nat, rest: string)
    requires k <= |line| && line[k..] == " " + rest
    ensures k + 1 <= |line| && line[k + 1..] == rest
  {
    assert line[k..][1..] == line[k + 1..];
  }

  lemma FrontIs(pid: nat, comm: string, fields: seq<string>, end: string)
    ensures Front(pid, comm, fields) + end
         == Decimal(pid) + " " + "(" + comm + ")" + (" " + (Join(fields) + end))
  {
    hide Join;
    var a := Decimal(pid) + " (" + comm;
    assert " (" == " " + "(" && ") " == ")" + " ";
    Assoc(Decimal(pid), " ", "(");
    Assoc(a, ")", " ");
    Assoc4(a + ")", " ", Join(fields), end);
  }
}
