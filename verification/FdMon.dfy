/** File-descriptor monitoring (fdmon.c): per-round deltas, baselines that survive
    over rounds, and the lists of top consumers and possible leakers. */
module FdMon {
  import opened Sequences
  import opened Text
  import opened TopN

  const MAX_PROCS: nat := 100
  const MAX_ROWS: nat := 200
  const TOP_COUNT: nat := 25

  /** A pid and its descriptor count; in a scan a negative count is unreadable. */
  datatype Row = Row(pid: int, fdCount: int)

  datatype Usage = Usage(pid: int, fdCount: int, initial: int, delta: int, change: int)

  ghost predicate Distinct(rows: seq<Row>) {
    forall i, j :: 0 <= i < j < |rows| ==> rows[i].pid != rows[j].pid
  }

  function Readable(scan: seq<Row>): (r: seq<Row>)
    ensures |r| <= |scan|
  {
    if scan == [] then []
    else
      var s := scan[|scan| - 1];
      Readable(scan[..|scan| - 1]) + if s.fdCount < 0 then [] else [s]
  }

  /** The records of a round: the first 100 readable processes. */
  function Accepted(scan: seq<Row>): seq<Row> {
    Readable(scan)[..Min(|Readable(scan)|, MAX_PROCS)]
  }

  /** `kept` are exactly the processes whose descriptors could be counted - 0 is a count -
      in their order; `at` says where they stand in the scan. */
  ghost predicate Keeps(scan: seq<Row>, kept: seq<Row>, at: seq<nat>) {
    && |at| == |kept|
    && (forall k :: 0 <= k < |at| ==> at[k] < |scan| && kept[k] == scan[at[k]])
    && (forall k, l :: 0 <= k < l < |at| ==> at[k] < at[l])
    && (forall i :: 0 <= i < |scan| ==> (scan[i].fdCount >= 0 <==> i in at))
  }

  lemma KeepsMore(scan: seq<Row>, kept: seq<Row>, at: seq<nat>, s: Row)
    requires Keeps(scan, kept, at)
    ensures s.fdCount < 0 ==> Keeps(scan + [s], kept, at)
    ensures s.fdCount >= 0 ==> Keeps(scan + [s], kept + [s], at + [|scan|])
  {
    assert forall i :: 0 <= i < |scan| ==> (scan + [s])[i] == scan[i];
    assert |scan| !in at;
    assert forall i: nat :: i in at + [|scan|] <==> i in at || i == |scan|;
  }

  lemma KeepsNothing()
    ensures Keeps([], [], [])
  {
  }

  lemma {:induction false} ReadableIs(scan: seq<Row>) returns (at: seq<nat>)
    ensures Keeps(scan, Readable(scan), at)
  {
    hide Keeps;
    if scan == [] {
      at := [];
      assert Keeps([], [], []) by { KeepsNothing(); }
    } else {
      var n := |scan| - 1;
      var before := ReadableIs(scan[..n]);
      KeepsMore(scan[..n], Readable(scan[..n]), before, scan[n]);
      assert scan[..n] + [scan[n]] == scan;
      assert Readable(scan[..n]) + [] == Readable(scan[..n]);
      at := if scan[n].fdCount < 0 then before else before + [n];
    }
  }

  /** A round accepts exactly the readable processes, in order; of more than 100 the
      first 100. */
  lemma AcceptedIs(scan: seq<Row>) returns (kept: seq<Row>, at: seq<nat>)
    ensures Keeps(scan, kept, at) && Accepted(scan) == if |kept| <= 100 then kept else kept[..100]
  {
    kept := Readable(scan);
    at := ReadableIs(scan);
  }

  /** The first row of a pid, -1 where there is none. */
  function Find(rows: seq<Row>, pid: int): (i: int)
    ensures -1 <= i < |rows|
    ensures i >= 0 ==> rows[i].pid == pid
    ensures forall j :: 0 <= j < (if i < 0 then |rows| else i) ==> rows[j].pid != pid
  {
    IndexWhere(rows, (r: Row) => r.pid == pid, 0)
  }

  lemma FindIs(rows: seq<Row>, pid: int, k: nat)
    requires k <= |rows| && forall j :: 0 <= j < k ==> rows[j].pid != pid
    ensures k == |rows| ==> Find(rows, pid) == -1
    ensures k < |rows| && rows[k].pid == pid ==> Find(rows, pid) == k
  {
    var i := Find(rows, pid);
    assert i >= 0 ==> rows[i].pid == pid;
  }

  /** find_or_create_initial: a new pid gets a baseline row while there is room. */
  function AddRow(initial: seq<Row>, e: Row): seq<Row> {
    if Find(initial, e.pid) >= 0 || |initial| >= MAX_ROWS then initial else initial + [e]
  }

  function AddRows(initial: seq<Row>, scan: seq<Row>): seq<Row> {
    if scan == [] then initial else AddRow(AddRows(initial, scan[..|scan| - 1]), scan[|scan| - 1])
  }

  /** The entry built for one process, given the last round and the baseline table
      after its own row was looked up or created. */
  function UsageOf(previous: seq<Row>, initial: seq<Row>, e: Row): Usage {
    var p := Find(previous, e.pid);
    var b := Find(initial, e.pid);
    var base := if b >= 0 then initial[b].fdCount else e.fdCount;
    Usage(e.pid, e.fdCount, base, if p >= 0 then e.fdCount - previous[p].fdCount else 0, e.fdCount - base)
  }

  function Usages(previous: seq<Row>, initial: seq<Row>, scan: seq<Row>): (r: seq<Usage>)
    ensures |r| == |scan|
  {
    if scan == [] then []
    else Usages(previous, initial, scan[..|scan| - 1])
         + [UsageOf(previous, AddRows(initial, scan), scan[|scan| - 1])]
  }

  function Total(usages: seq<Usage>): int {
    if usages == [] then 0 else Total(usages[..|usages| - 1]) + usages[|usages| - 1].fdCount
  }

  // ----- Baselines over rounds -----

  /** The baseline table after a run of rounds. */
  function Baseline(rounds: seq<seq<Row>>): seq<Row> {
    if rounds == [] then [] else AddRows(Baseline(rounds[..|rounds| - 1]), rounds[|rounds| - 1])
  }

  /** Rows are only ever appended: one that exists keeps its place and its count. */
  lemma {:induction false} RowsOnlyAppend(initial: seq<Row>, scan: seq<Row>)
    ensures initial <= AddRows(initial, scan)
  {
    if scan != [] {
      RowsOnlyAppend(initial, scan[..|scan| - 1]);
    }
  }

  lemma {:induction false} AddRowsKeeps(initial: seq<Row>, scan: seq<Row>)
    requires Distinct(initial) && |initial| <= MAX_ROWS
    ensures Distinct(AddRows(initial, scan)) && |AddRows(initial, scan)| <= MAX_ROWS
  {
    if scan != [] {
      AddRowsKeeps(initial, scan[..|scan| - 1]);
    }
  }

  /** Over any run of scans the baseline rows stay distinct and never exceed the
      table. */
  lemma {:induction false} BaselineDistinct(rounds: seq<seq<Row>>)
    ensures Distinct(Baseline(rounds)) && |Baseline(rounds)| <= MAX_ROWS
  {
    if rounds != [] {
      BaselineDistinct(rounds[..|rounds| - 1]);
      AddRowsKeeps(Baseline(rounds[..|rounds| - 1]), rounds[|rounds| - 1]);
    }
  }

  lemma {:induction false} BaselineGrows(rounds: seq<seq<Row>>, k: nat)
    requires k <= |rounds|
    ensures Baseline(rounds[..k]) <= Baseline(rounds)
    decreases |rounds|
  {
    if k == |rounds| {
      assert rounds[..k] == rounds;
    } else {
      var n := |rounds| - 1;
      BaselineGrows(rounds[..n], k);
      assert rounds[..n][..k] == rounds[..k];
      RowsOnlyAppend(Baseline(rounds[..n]), rounds[n]);
    }
  }

  lemma FindPrefix(a: seq<Row>, b: seq<Row>, pid: int)
    requires a <= b && Find(a, pid) >= 0
    ensures Find(b, pid) == Find(a, pid) && b[Find(a, pid)] == a[Find(a, pid)]
  {
    var k := Find(a, pid);
    assert b[k] == a[k] && forall j :: 0 <= j < k ==> b[j] == a[j];
    FindIs(b, pid, k);
  }

  lemma FindAppended(rows: seq<Row>, e: Row, pid: int)
    requires Find(rows, pid) < 0
    ensures Find(rows + [e], pid) == if e.pid == pid then |rows| else -1
  {
    var all := rows + [e];
    FindIs(all, pid, |rows|);
    if e.pid != pid {
      FindIs(all, pid, |all|);
    }
  }

  /** A scanned pid without a row afterwards means the table is full. */
  lemma {:induction false} NoRowMeansFull(initial: seq<Row>, scan: seq<Row>, k: nat)
    requires k < |scan| && Find(AddRows(initial, scan), scan[k].pid) < 0
    ensures |AddRows(initial, scan)| >= MAX_ROWS
  {
    var n := |scan| - 1;
    var rows := AddRows(initial, scan[..n]);
    if k == n {
      if Find(rows, scan[n].pid) < 0 {
        FindAppended(rows, scan[n], scan[n].pid);
      }
    } else {
      if Find(rows, scan[k].pid) >= 0 {
        assert rows <= AddRows(initial, scan);
        FindPrefix(rows, AddRows(initial, scan), scan[k].pid);
      }
      NoRowMeansFull(initial, scan[..n], k);
    }
  }

  /** A new row carries the count of the scan that made it. */
  lemma {:induction false} NewRowCount(initial: seq<Row>, scan: seq<Row>, pid: int)
    requires Distinct(scan) && Find(initial, pid) < 0 && Find(AddRows(initial, scan), pid) >= 0
    ensures Find(scan, pid) >= 0
    ensures AddRows(initial, scan)[Find(AddRows(initial, scan), pid)] == scan[Find(scan, pid)]
  {
    if scan != [] {
      var n := |scan| - 1;
      var rows := AddRows(initial, scan[..n]);
      if Find(rows, pid) >= 0 {
        NewRowCount(initial, scan[..n], pid);
        FindPrefix(rows, AddRows(initial, scan), pid);
        FindPrefix(scan[..n], scan, pid);
      } else {
        FindAppended(rows, scan[n], pid);
        FindInDistinct(scan, n);
      }
    }
  }

  lemma FindInDistinct(rows: seq<Row>, k: nat)
    requires Distinct(rows) && k < |rows|
    ensures Find(rows, rows[k].pid) == k
  {
    FindIs(rows, rows[k].pid, k);
  }

  // ----- What is reported for a pid -----

  function CountOf(scan: seq<Row>, pid: int): int
    requires Find(scan, pid) >= 0
  {
    scan[Find(scan, pid)].fdCount
  }

  function RoundBefore(rounds: seq<seq<Row>>, r: nat): seq<Row>
    requires r < |rounds|
  {
    if r == 0 then [] else rounds[r - 1]
  }

  /** The entry of a pid in round `r` of a run. */
  function Reported(rounds: seq<seq<Row>>, r: nat, pid: int): Usage
    requires r < |rounds| && Find(rounds[r], pid) >= 0
  {
    UsageOf(RoundBefore(rounds, r), Baseline(rounds[..r + 1]), rounds[r][Find(rounds[r], pid)])
  }

  /** The list a round builds is, pid by pid, what Reported says: later rows of the
      same scan do not change earlier entries. */
  lemma {:induction false} UsagesAreFinal(previous: seq<Row>, initial: seq<Row>, scan: seq<Row>, k: nat)
    requires Distinct(scan) && k < |scan|
    ensures Usages(previous, initial, scan)[k] == UsageOf(previous, AddRows(initial, scan), scan[k])
  {
    var n := |scan| - 1;
    if k < n {
      UsagesAreFinal(previous, initial, scan[..n], k);
      var rows, all := AddRows(initial, scan[..n]), AddRows(initial, scan);
      if Find(rows, scan[k].pid) >= 0 {
        FindPrefix(rows, all, scan[k].pid);
      } else {
        FindIs(all, scan[k].pid, |all|);
      }
    }
  }

  /** The round a pid's row was made in. */
  ghost predicate RowMadeIn(rounds: seq<seq<Row>>, a: nat, pid: int)
    requires a < |rounds|
  {
    Find(Baseline(rounds[..a]), pid) < 0 && Find(Baseline(rounds[..a + 1]), pid) >= 0
  }

  lemma BaselineStep(rounds: seq<seq<Row>>, a: nat)
    requires a < |rounds|
    ensures Baseline(rounds[..a + 1]) == AddRows(Baseline(rounds[..a]), rounds[a])
  {
    assert rounds[..a + 1][..a] == rounds[..a];
  }

  /** The baseline shown for a pid with a row is its count in the round that made the
      row, and the change its count minus that one. */
  lemma ChangeIsSinceRow(rounds: seq<seq<Row>>, a: nat, b: nat, pid: int)
    requires a <= b < |rounds| && Distinct(rounds[a]) && Find(rounds[b], pid) >= 0
    requires RowMadeIn(rounds, a, pid)
    ensures Find(rounds[a], pid) >= 0
    ensures Reported(rounds, b, pid).initial == CountOf(rounds[a], pid)
    ensures Reported(rounds, b, pid).change == CountOf(rounds[b], pid) - CountOf(rounds[a], pid)
  {
    BaselineStep(rounds, a);
    NewRowCount(Baseline(rounds[..a]), rounds[a], pid);
    BaselineGrows(rounds[..b + 1], a + 1);
    assert rounds[..b + 1][..a + 1] == rounds[..a + 1];
    FindPrefix(Baseline(rounds[..a + 1]), Baseline(rounds[..b + 1]), pid);
  }

  lemma {:induction false} FullStays(initial: seq<Row>, scan: seq<Row>)
    requires |initial| >= MAX_ROWS
    ensures AddRows(initial, scan) == initial
  {
    if scan != [] {
      FullStays(initial, scan[..|scan| - 1]);
    }
  }

  lemma {:induction false} FullForever(rounds: seq<seq<Row>>, b: nat, c: nat)
    requires b <= c <= |rounds| && |Baseline(rounds[..b])| >= MAX_ROWS
    ensures Baseline(rounds[..c]) == Baseline(rounds[..b])
    decreases c
  {
    if b < c {
      FullForever(rounds, b, c - 1);
      BaselineStep(rounds, c - 1);
      FullStays(Baseline(rounds[..c - 1]), rounds[c - 1]);
    }
  }

  /** A scanned pid that is left without a row has met a full table; it never gets one,
      and shows no change in that round or any later one. */
  lemma NoRowNoChange(rounds: seq<seq<Row>>, b: nat, c: nat, pid: int)
    requires b <= c < |rounds| && Find(rounds[b], pid) >= 0 && Find(Baseline(rounds[..b + 1]), pid) < 0
    requires Find(rounds[c], pid) >= 0
    ensures |Baseline(rounds[..b + 1])| == 200
    ensures Reported(rounds, c, pid).change == 0 && Reported(rounds, c, pid).initial == CountOf(rounds[c], pid)
  {
    BaselineStep(rounds, b);
    NoRowMeansFull(Baseline(rounds[..b]), rounds[b], Find(rounds[b], pid));
    BaselineDistinct(rounds[..b + 1]);
    FullForever(rounds, b + 1, c + 1);
  }

  /** In the round that makes its row a pid shows no delta: had it been in the round
      before, it would have had a row already. */
  lemma FirstDeltaIsZero(rounds: seq<seq<Row>>, a: nat, pid: int)
    requires a < |rounds| && RowMadeIn(rounds, a, pid) && Find(rounds[a], pid) >= 0
    ensures Reported(rounds, a, pid).delta == 0
  {
    if a > 0 && Find(rounds[a - 1], pid) >= 0 {
      BaselineStep(rounds, a - 1);
      BaselineStep(rounds, a);
      NoRowMeansFull(Baseline(rounds[..a - 1]), rounds[a - 1], Find(rounds[a - 1], pid));
      FullStays(Baseline(rounds[..a]), rounds[a]);
    }
  }

  function SumDeltas(rounds: seq<seq<Row>>, a: nat, b: nat, pid: int): int
    requires a <= b < |rounds| && forall r :: a <= r <= b ==> Find(rounds[r], pid) >= 0
    decreases b
  {
    Reported(rounds, b, pid).delta + if a == b then 0 else SumDeltas(rounds, a, b - 1, pid)
  }

  lemma LaterDelta(rounds: seq<seq<Row>>, b: nat, pid: int)
    requires 0 < b < |rounds| && Find(rounds[b], pid) >= 0 && Find(rounds[b - 1], pid) >= 0
    ensures Reported(rounds, b, pid).delta == CountOf(rounds[b], pid) - CountOf(rounds[b - 1], pid)
  {
  }

  /** The pid and the count shown are those of the round, and the delta is the difference
      to the round before, 0 for a pid that was not in it, also where it was in an
      earlier one. */
  lemma DeltaIsSinceLastRound(rounds: seq<seq<Row>>, r: nat, pid: int)
    requires r < |rounds| && Find(rounds[r], pid) >= 0
    ensures Reported(rounds, r, pid).pid == pid && Reported(rounds, r, pid).fdCount == CountOf(rounds[r], pid)
    ensures Reported(rounds, r, pid).delta
         == if r > 0 && Find(rounds[r - 1], pid) >= 0
            then CountOf(rounds[r], pid) - CountOf(rounds[r - 1], pid) else 0
  {
  }

  /** For a pid present in every round since its row was made, the deltas of those
      rounds add up to the change reported. */
  lemma {:induction false} DeltasTelescope(rounds: seq<seq<Row>>, a: nat, b: nat, pid: int)
    requires a <= b < |rounds| && forall r :: a <= r <= b ==> Find(rounds[r], pid) >= 0
    requires Distinct(rounds[a]) && RowMadeIn(rounds, a, pid)
    ensures SumDeltas(rounds, a, b, pid) == Reported(rounds, b, pid).change
    decreases b
  {
    hide Reported;
    hide RowMadeIn;
    ChangeIsSinceRow(rounds, a, b, pid);
    if a == b {
      FirstDeltaIsZero(rounds, a, pid);
    } else {
      DeltasTelescope(rounds, a, b - 1, pid);
      ChangeIsSinceRow(rounds, a, b - 1, pid);
      LaterDelta(rounds, b, pid);
    }
  }

  // ----- The service as written -----

  function ByCount(u: Usage): int {
    u.fdCount
  }

  function ByChange(u: Usage): int {
    u.change
  }

  predicate Leaks(u: Usage) {
    u.change > 0
  }

  predicate Any(u: Usage) {
    true
  }

  /** What the lists of a round say of its entries, in their own figures: the largest
      counts in order, as many as fit 25; and the largest positive changes in order, left
      out only by a full list of changes as large. */
  ghost predicate ListsShow(usages: seq<Usage>, topConsumers: seq<Usage>, leakers: seq<Usage>) {
    && |topConsumers| == Min(25, |usages|) && |leakers| <= 25
    && (forall u :: u in topConsumers ==> u in usages)
    && (forall u :: u in leakers ==> u in usages && u.change > 0)
    && (forall i, j :: 0 <= i < j < |topConsumers| ==> topConsumers[i].fdCount >= topConsumers[j].fdCount)
    && (forall i, j :: 0 <= i < j < |leakers| ==> leakers[i].change >= leakers[j].change)
    && (forall u, t :: u in usages && u !in topConsumers && t in topConsumers ==> t.fdCount >= u.fdCount)
    && (forall u :: u in usages && u.change > 0 && u !in leakers ==>
          |leakers| == 25 && forall t :: t in leakers ==> t.change >= u.change)
  }

  lemma ListsShowEntries(usages: seq<Usage>, topConsumers: seq<Usage>, leakers: seq<Usage>)
    requires IsTop(usages, topConsumers, TOP_COUNT, ByCount, Any)
    requires IsTop(usages, leakers, TOP_COUNT, ByChange, Leaks)
    ensures ListsShow(usages, topConsumers, leakers)
  {
    hide IsTop;
    TopMeans(usages, topConsumers, TOP_COUNT, ByCount, Any);
    TopMeans(usages, leakers, TOP_COUNT, ByChange, Leaks);
    TopSize(usages, topConsumers, TOP_COUNT, ByCount, Any);
    AllQualify(usages);
    forall i, j | 0 <= i < j < |topConsumers|
      ensures topConsumers[i].fdCount >= topConsumers[j].fdCount
    {
      assert ByCount(topConsumers[i]) >= ByCount(topConsumers[j]);
    }
    forall i, j | 0 <= i < j < |leakers|
      ensures leakers[i].change >= leakers[j].change
    {
      assert ByChange(leakers[i]) >= ByChange(leakers[j]);
    }
    forall u, t | u in usages && u !in topConsumers && t in topConsumers
      ensures t.fdCount >= u.fdCount
    {
      assert Any(u) && ByCount(t) >= ByCount(u);
    }
    forall u | u in usages && u.change > 0 && u !in leakers
      ensures |leakers| == 25 && forall t :: t in leakers ==> t.change >= u.change
    {
      assert Leaks(u) && forall t :: t in leakers ==> ByChange(t) >= ByChange(u);
    }
    assert forall u :: u in leakers ==> Leaks(u);
  }

  lemma {:induction false} AllQualify(usages: seq<Usage>)
    ensures Filter(usages, Any) == usages
  {
    if usages != [] {
      AllQualify(usages[1..]);
    }
  }

  /** The entries above their baseline. */
  function Leaking(usages: seq<Usage>): set<nat> {
    set k: nat | k < |usages| && usages[k].change > 0
  }

  /** The count of potential leaks is the number of those entries. */
  lemma {:induction false} LeaksAreCounted(usages: seq<Usage>)
    ensures |Filter(usages, Leaks)| == |Leaking(usages)|
    decreases |usages|
  {
    if usages != [] {
      var n := |usages| - 1;
      LeaksAreCounted(usages[..n]);
      assert usages[..n] + [usages[n]] == usages;
      FilterAppend(usages[..n], usages[n], Leaks);
      assert Leaking(usages) == Leaking(usages[..n]) + if usages[n].change > 0 then {n} else {};
    }
  }

  /** The total is additive over the entries. */
  lemma {:induction false} TotalAdds(a: seq<Usage>, b: seq<Usage>)
    ensures Total(a + b) == Total(a) + Total(b)
    ensures |a| == 1 ==> Total(a) == a[0].fdCount
  {
    if b == [] {
      assert a + b == a;
    } else {
      var n := |b| - 1;
      TotalAdds(a, b[..n]);
      assert (a + b)[..|a| + n] == a + b[..n];
    }
  }

  class Service {
    const current: array<Row>
    const previous: array<Row>
    const initial: array<Row>
    var currentCount: nat
    var previousCount: nat
    var initialCount: nat
    var topConsumers: seq<Usage>
    var leakers: seq<Usage>
    var totalFds: int
    var procCount: nat
    var potentialLeaks: nat

    /** The entries the last round ranked. */
    ghost var usages: seq<Usage>

    ghost predicate Valid()
      reads this
    {
      && current.Length == MAX_PROCS && previous.Length == MAX_PROCS && initial.Length == MAX_ROWS
      && current != previous && current != initial && previous != initial
      && currentCount <= MAX_PROCS && previousCount <= MAX_PROCS && initialCount <= MAX_ROWS
    }

    constructor ()
      ensures Valid() && currentCount == 0 && initialCount == 0
      ensures fresh(current) && fresh(previous) && fresh(initial)
    {
      current := new Row[MAX_PROCS](_ => Row(0, 0));
      previous := new Row[MAX_PROCS](_ => Row(0, 0));
      initial := new Row[MAX_ROWS](_ => Row(0, 0));
      currentCount, previousCount, initialCount := 0, 0, 0;
      topConsumers, leakers, usages := [], [], [];
      totalFds, procCount, potentialLeaks := 0, 0, 0;
    }

    /** The search loops of find_previous and find_or_create_initial. */
    static method Search(rows: array<Row>, n: nat, pid: int) returns (i: int)
      requires n <= rows.Length
      ensures i == Find(rows[..n], pid)
    {
      for k := 0 to n
        invariant forall j :: 0 <= j < k ==> rows[j].pid != pid
      {
        FindIs(rows[..n], pid, k);
        if rows[k].pid == pid { return k; }
      }
      FindIs(rows[..n], pid, n);
      i := -1;
    }

    /** find_or_create_initial: the slot of the row, -1 when there is no room. */
    method FindOrCreateInitial(pid: int, fdCount: int) returns (i: int)
      requires Valid()
      modifies this`initialCount, initial
      ensures Valid() && initial[..initialCount] == AddRow(old(initial[..initialCount]), Row(pid, fdCount))
      ensures i == Find(initial[..initialCount], pid)
    {
      i := Search(initial, initialCount, pid);
      if i >= 0 { return; }
      if initialCount < MAX_ROWS {
        i := initialCount;
        FindAppended(initial[..initialCount], Row(pid, fdCount), pid);
        initial[initialCount] := Row(pid, fdCount);
        initialCount := initialCount + 1;
        assert initial[..initialCount] == old(initial[..initialCount]) + [Row(pid, fdCount)];
      }
    }

    /** The entry for one readable process. */
    method Record(e: Row, list: seq<Usage>) returns (list': seq<Usage>)
      requires Valid() && currentCount == |list| < MAX_PROCS
      modifies this`currentCount, this`initialCount, this`totalFds, this`procCount, this`potentialLeaks
      modifies current, initial
      ensures Valid() && currentCount == |list'|
      ensures current[..currentCount] == old(current[..currentCount]) + [e]
      ensures initial[..initialCount] == AddRow(old(initial[..initialCount]), e)
      ensures list' == list + [UsageOf(previous[..previousCount], initial[..initialCount], e)]
      ensures list'[|list|].fdCount == e.fdCount
      ensures totalFds == old(totalFds) + e.fdCount && procCount == old(procCount) + 1
      ensures potentialLeaks == old(potentialLeaks) + if Leaks(list'[|list|]) then 1 else 0
    {
      hide AddRow;
      current[currentCount] := e;
      currentCount := currentCount + 1;
      var p := Search(previous, previousCount, e.pid);
      var delta := if p >= 0 then e.fdCount - previous[p].fdCount else 0;
      var b := FindOrCreateInitial(e.pid, e.fdCount);
      var base := if b >= 0 then initial[b].fdCount else e.fdCount;
      var u := Usage(e.pid, e.fdCount, base, delta, e.fdCount - base);
      list' := list + [u];
      totalFds := totalFds + e.fdCount;
      procCount := procCount + 1;
      if u.change > 0 {
        potentialLeaks := potentialLeaks + 1;
      }
    }

    /** The walk over /proc. */
    method Scan(scan: seq<Row>) returns (list: seq<Usage>)
      requires Valid() && currentCount == 0 && totalFds == 0 && procCount == 0 && potentialLeaks == 0
      modifies this`currentCount, this`initialCount, this`totalFds, this`procCount, this`potentialLeaks
      modifies current, initial
      ensures Valid() && current[..currentCount] == Accepted(scan)
      ensures initial[..initialCount] == AddRows(old(initial[..initialCount]), Accepted(scan))
      ensures list == Usages(previous[..previousCount], old(initial[..initialCount]), Accepted(scan))
      ensures totalFds == Total(list) && procCount == |list| && potentialLeaks == |Filter(list, Leaks)|
    {
      hide UsageOf;
      hide AddRows;
      hide Usages;
      hide Filter;
      hide Total;
      ghost var was := initial[..initialCount];
      EmptyScan(previous[..previousCount], was);
      list := [];
      var k := 0;
      while k < |scan| && |list| < MAX_PROCS
        invariant 0 <= k <= |scan| && Valid()
        invariant |list| == currentCount && |Readable(scan[..k])| == currentCount <= MAX_PROCS
        invariant current[..currentCount] == Readable(scan[..k])
        invariant initial[..initialCount] == AddRows(was, Readable(scan[..k]))
        invariant list == Usages(previous[..previousCount], was, Readable(scan[..k]))
        invariant totalFds == Total(list) && procCount == |list| && potentialLeaks == |Filter(list, Leaks)|
      {
        var e := scan[k];
        assert scan[..k + 1][..k] == scan[..k];
        if e.fdCount >= 0 {
          assert Readable(scan[..k + 1]) == Readable(scan[..k]) + [e];
          ScanStep(previous[..previousCount], was, Readable(scan[..k]), e);
          ghost var short, u := list, UsageOf(previous[..previousCount], AddRows(was, Readable(scan[..k + 1])), e);
          ListStep(short, u);
          list := Record(e, list);
          assert list == short + [u];
        }
        k := k + 1;
      }
      assert k == |scan| ==> scan[..k] == scan;
      ReadableGrows(scan, k);
    }

    /** The start of a collection: the counts of the last round are kept, everything
        else starts again. */
    method Rotate()
      requires Valid()
      modifies this, previous
      ensures Valid() && previous[..previousCount] == old(current[..currentCount])
      ensures currentCount == 0 && initialCount == old(initialCount)
      ensures totalFds == 0 && procCount == 0 && potentialLeaks == 0
    {
      forall i | 0 <= i < MAX_PROCS {
        previous[i] := current[i];
      }
      previousCount := currentCount;
      assert previous[..previousCount] == old(current[..currentCount]);
      currentCount := 0;
      topConsumers, leakers := [], [];
      totalFds, procCount, potentialLeaks := 0, 0, 0;
    }

    /** fdmon_collect; None where /proc cannot be opened. */
    method Collect(scan: Option<seq<Row>>) returns (ret: int)
      requires Valid()
      modifies this, current, previous, initial
      ensures Valid() && previous[..previousCount] == old(current[..currentCount])
      ensures ret == if scan.Some? then 0 else -1
      ensures scan.None? ==> currentCount == 0 && initial[..initialCount] == old(initial[..initialCount])
      ensures scan.Some? ==>
                && current[..currentCount] == Accepted(scan.value)
                && initial[..initialCount] == AddRows(old(initial[..initialCount]), Accepted(scan.value))
                && usages == Usages(old(current[..currentCount]), old(initial[..initialCount]), Accepted(scan.value))
                && totalFds == Total(usages) && procCount == |usages|
                && IsTop(usages, topConsumers, TOP_COUNT, ByCount, Any)
                && IsTop(usages, leakers, TOP_COUNT, ByChange, Leaks)
                && |leakers| == Min(TOP_COUNT, potentialLeaks)
                && ListsShow(usages, topConsumers, leakers) && potentialLeaks == |Leaking(usages)|
    {
      hide IsTop;
      hide Accepted;
      hide AddRows;
      hide Usages;
      hide Filter;
      hide Total;
      hide ListsShow;
      hide Leaking;
      Rotate();
      if scan.None? { return -1; }
      var list := Scan(scan.value);
      usages := list;
      topConsumers := SelectTop(list, TOP_COUNT, ByCount, Any);
      leakers := SelectTop(list, TOP_COUNT, ByChange, Leaks);
      TopSize(list, leakers, TOP_COUNT, ByChange, Leaks);
      ListsShowEntries(list, topConsumers, leakers);
      LeaksAreCounted(list);
      ret := 0;
    }

    /** Any number of rounds from the start: every entry of the last list is what
        Reported says of its pid in the whole run. */
    method Rounds(scans: seq<seq<Row>>)
      requires Valid() && currentCount == 0 && initialCount == 0 && scans != []
      requires forall r :: 0 <= r < |scans| ==> Distinct(scans[r])
      modifies this, current, previous, initial
      ensures Valid() && initial[..initialCount] == Baseline(AcceptedAll(scans))
      ensures AllReported(AcceptedAll(scans), usages)
    {
      hide IsTop;
      hide Accepted;
      hide AddRows;
      hide Usages;
      hide Baseline;
      hide AllReported;
      ghost var rounds := AcceptedAll(scans);
      assert Baseline(rounds[..0]) == [] by { NoBaseline(rounds[..0]); }
      for r := 0 to |scans|
        invariant Valid()
        invariant current[..currentCount] == if r == 0 then [] else rounds[r - 1]
        invariant initial[..initialCount] == Baseline(rounds[..r])
        invariant r > 0 ==> usages == Usages(RoundBefore(rounds, r - 1), Baseline(rounds[..r - 1]), rounds[r - 1])
      {
        BaselineStep(rounds, r);
        var ret := Collect(Some(scans[r]));
      }
      assert rounds[..|scans|] == rounds;
      ReadableDistinct(scans[|scans| - 1]);
      LastListIsReported(rounds);
    }
  }

  lemma NoBaseline(rounds: seq<seq<Row>>)
    ensures rounds == [] ==> Baseline(rounds) == []
  {
  }

  function AcceptedAll(scans: seq<seq<Row>>): seq<seq<Row>> {
    seq(|scans|, i requires 0 <= i < |scans| => Accepted(scans[i]))
  }

  lemma {:induction false} ReadableDistinct(scan: seq<Row>)
    requires Distinct(scan)
    ensures Distinct(Readable(scan)) && Distinct(Accepted(scan))
    ensures forall x :: x in Readable(scan) ==> x in scan
  {
    if scan != [] {
      var n := |scan| - 1;
      ReadableDistinct(scan[..n]);
      forall k | 0 <= k < |Readable(scan[..n])|
        ensures Readable(scan[..n])[k].pid != scan[n].pid
      {
        assert Readable(scan[..n])[k] in scan[..n];
      }
    }
  }

  /** The list holds, for each record of the last round, what Reported says. */
  ghost predicate AllReported(rounds: seq<seq<Row>>, usages: seq<Usage>)
    requires rounds != []
  {
    var r := |rounds| - 1;
    && |usages| == |rounds[r]|
    && forall k :: 0 <= k < |usages| ==>
         Find(rounds[r], usages[k].pid) == k && usages[k] == Reported(rounds, r, usages[k].pid)
  }

  lemma LastListIsReported(rounds: seq<seq<Row>>)
    requires rounds != [] && Distinct(rounds[|rounds| - 1])
    ensures var r := |rounds| - 1;
            AllReported(rounds, Usages(RoundBefore(rounds, r), Baseline(rounds[..r]), rounds[r]))
  {
    var r := |rounds| - 1;
    var usages := Usages(RoundBefore(rounds, r), Baseline(rounds[..r]), rounds[r]);
    BaselineStep(rounds, r);
    forall k | 0 <= k < |usages|
      ensures Find(rounds[r], usages[k].pid) == k && usages[k] == Reported(rounds, r, usages[k].pid)
    {
      UsagesAreFinal(RoundBefore(rounds, r), Baseline(rounds[..r]), rounds[r], k);
      FindInDistinct(rounds[r], k);
    }
  }

  lemma EmptyScan(previous: seq<Row>, initial: seq<Row>)
    ensures AddRows(initial, []) == initial && Usages(previous, initial, []) == []
    ensures Total([]) == 0 && Filter([], Leaks) == []
  {
  }

  lemma ScanStep(previous: seq<Row>, initial: seq<Row>, scan: seq<Row>, e: Row)
    ensures AddRows(initial, scan + [e]) == AddRow(AddRows(initial, scan), e)
    ensures Usages(previous, initial, scan + [e])
         == Usages(previous, initial, scan) + [UsageOf(previous, AddRows(initial, scan + [e]), e)]
  {
    assert (scan + [e])[..|scan|] == scan;
  }

  lemma ListStep(list: seq<Usage>, u: Usage)
    ensures Total(list + [u]) == Total(list) + u.fdCount
    ensures |Filter(list + [u], Leaks)| == |Filter(list, Leaks)| + if Leaks(u) then 1 else 0
  {
    assert (list + [u])[..|list|] == list;
    FilterAppend(list, u, Leaks);
  }

  lemma TopSize(all: seq<Usage>, top: seq<Usage>, n: nat, score: Usage -> int, ok: Usage -> bool)
    requires IsTop(all, top, n, score, ok)
    ensures |top| == Min(n, |Filter(all, ok)|)
  {
  }

  lemma {:induction false} ReadableGrows(scan: seq<Row>, k: nat)
    requires k <= |scan|
    ensures Readable(scan[..k]) <= Readable(scan)
    ensures (k == |scan| && |Readable(scan)| <= MAX_PROCS) || |Readable(scan[..k])| == MAX_PROCS
            ==> Accepted(scan) == Readable(scan[..k])
    decreases |scan|
  {
    if k == |scan| {
      assert scan[..k] == scan;
    } else {
      var short := scan[..|scan| - 1];
      ReadableGrows(short, k);
      assert short[..k] == scan[..k];
    }
  }
}
