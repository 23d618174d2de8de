/** The tracking side of timeTracking.cpp: the process table (pid to name and
    start tick), the uptime ledger (name to seconds of uptime of processes
    that ended), their initialisation, and one pass of the loop in
    `timeTracking` that compares the old pid list with the new one, credits
    the processes that ended and reads the ones that started. */
module Tracking {
  import opened Wrappers
  import opened Text
  import opened Order
  import opened Stat

  /** A process as the table holds it: its name and its start tick. */
  datatype Process = Process(name: string, startTick: int)

  /** std::map<int, std::pair<std::string, int>> processBuffer */
  type Table = map<int, Process>

  /** std::map<std::string, float> uptimeBuffer */
  type Ledger = map<string, real>

  /** The `/proc/<pid>/stat` record of every pid whose file opens. */
  type Proc = map<int, string>

  /** The index of the first decimal digit of `s`. */
  function FirstDigit(s: string): (r: Option<nat>)
    ensures r.Some? ==> r.value < |s| && IsDigit(s[r.value])
    ensures r.Some? ==> forall j :: 0 <= j < r.value ==> !IsDigit(s[j])
    ensures r.None? ==> forall j :: 0 <= j < |s| ==> !IsDigit(s[j])
  {
    if |s| == 0 then None
    else if IsDigit(s[0]) then Some(0)
    else
      var o := FirstDigit(s[1..]);
      if o.Some? then Some(o.value + 1) else None
  }

  /** `containsNumber`: `find_first_of("0123456789")` finds something. */
  function ContainsNumber(s: string): (b: bool)
    ensures b <==> exists i :: 0 <= i < |s| && IsDigit(s[i])
  {
    FirstDigit(s).Some?
  }

  predicate Distinct(s: seq<int>) {
    forall i, j :: 0 <= i < j < |s| ==> s[i] != s[j]
  }

  /** Every stat record the model reads is one the reader gets through. */
  predicate Readable(proc: Proc) {
    forall p :: p in proc ==> WellFormed(proc[p])
  }

  /** The table entry read from the stat record of `p`. */
  function ReadProcess(proc: Proc, p: int): Process
    requires Readable(proc) && p in proc
  {
    var s := StatOf(proc[p]);
    Process(s.0, s.1)
  }

  /** `processBuffer.insert({pid, …})` after the record was read; a pid whose
      file does not open is skipped, and insert keeps an existing entry. */
  function InsertOne(t: Table, p: int, proc: Proc): Table
    requires Readable(proc)
  {
    if p in proc && p !in t then t[p := ReadProcess(proc, p)] else t
  }

  /** The pids of `ps` inserted one after the other. */
  function InsertAll(t: Table, ps: seq<int>, proc: Proc): (r: Table)
    requires Readable(proc)
    ensures forall p :: p in r <==> p in t || (p in ps && p in proc)
    ensures forall p :: p in t ==> r[p] == t[p]
    ensures forall p :: p in r && p !in t ==> r[p] == ReadProcess(proc, p)
  {
    if |ps| == 0 then t
    else
      var front := ps[..|ps| - 1];
      assert ps == front + [ps[|ps| - 1]];
      InsertOne(InsertAll(t, front, proc), ps[|ps| - 1], proc)
  }

  /** `initProcessBuffer`, given the pids of the numbered directories of
      `/proc` in the order the directory listing gives them. */
  method InitProcessBuffer(pids: seq<int>, proc: Proc) returns (processBuffer: Table)
    requires Readable(proc)
    ensures processBuffer == InsertAll(map[], pids, proc)
  {
    processBuffer := map[];
    var k := 0;
    while k < |pids|
      invariant k <= |pids|
      invariant processBuffer == InsertAll(map[], pids[..k], proc)
    {
      processBuffer := ReadInto(processBuffer, pids[k], proc);
      assert pids[..k + 1][..k] == pids[..k];
      k := k + 1;
    }
    assert pids[..k] == pids;
  }

  /** Opening, reading and inserting the stat record of one pid. */
  method ReadInto(processBuffer: Table, pid: int, proc: Proc) returns (t: Table)
    requires Readable(proc)
    ensures t == InsertOne(processBuffer, pid, proc)
  {
    t := processBuffer;
    if pid in proc {
      var processName, processStartTime := ParseStat(proc[pid]);
      if pid !in t {
        t := t[pid := Process(processName, processStartTime)];
      }
    }
  }

  /** `initUptimeBuffer`: every name of the table, uptime 0, visiting the
      table in pid order. */
  method InitUptimeBuffer(processBuffer: Table) returns (uptimeBuffer: Ledger)
    ensures uptimeBuffer.Keys == Names(processBuffer)
    ensures forall n :: n in uptimeBuffer ==> uptimeBuffer[n] == 0.0
  {
    var pids := PidList(processBuffer.Keys);
    uptimeBuffer := map[];
    var k := 0;
    while k < |pids|
      invariant k <= |pids|
      invariant uptimeBuffer.Keys == NamesOf(processBuffer, pids[..k])
      invariant AllZero(uptimeBuffer)
    {
      var name := processBuffer[pids[k]].name;
      ghost var before := uptimeBuffer;
      if name !in uptimeBuffer {
        uptimeBuffer := uptimeBuffer[name := 0.0];
      }
      assert name in before ==> uptimeBuffer == before;
      assert name !in before ==> uptimeBuffer == before[name := 0.0];
      NamesOfNext(processBuffer, pids, k);
      k := k + 1;
    }
    assert pids[..k] == pids;
    AllNames(processBuffer, pids);
  }

  predicate AllZero(u: Ledger) {
    forall n :: n in u ==> u[n] == 0.0
  }

  /** The names the table holds. */
  function Names(t: Table): set<string> {
    set p | p in t :: t[p].name
  }

  /** The names of the pids of `ps` that the table holds. */
  function NamesOf(t: Table, ps: seq<int>): set<string> {
    if |ps| == 0 then {}
    else
      var last := ps[|ps| - 1];
      NamesOf(t, ps[..|ps| - 1]) + (if last in t then {t[last].name} else {})
  }

  lemma NamesOfNext(t: Table, ps: seq<int>, k: nat)
    requires k < |ps| && ps[k] in t
    ensures NamesOf(t, ps[..k + 1]) == NamesOf(t, ps[..k]) + {t[ps[k]].name}
  {
    assert ps[..k + 1][..k] == ps[..k];
  }

  lemma {:induction false} NamesOfMembers(t: Table, ps: seq<int>)
    ensures forall p :: p in ps && p in t ==> t[p].name in NamesOf(t, ps)
    ensures forall n :: n in NamesOf(t, ps) ==> exists p :: p in ps && p in t && t[p].name == n
  {
    if |ps| > 0 {
      var front := ps[..|ps| - 1];
      assert ps == front + [ps[|ps| - 1]];
      NamesOfMembers(t, front);
    }
  }

  /** Visiting every pid of the table visits every name. */
  lemma AllNames(t: Table, ps: seq<int>)
    requires forall p :: p in t <==> p in ps
    ensures NamesOf(t, ps) == Names(t)
  {
    NamesOfMembers(t, ps);
  }

  /** The seconds credited for a process of start tick `start` that ended
      when the system had been up `now` seconds: one second less, to average
      out the polling interval, and never below zero. */
  function Clamped(now: real, start: int, clk: nat): (a: real)
    requires clk > 0
    ensures a >= 0.0 && a >= now - start as real / clk as real - 1.0
    ensures a == 0.0 || a == now - start as real / clk as real - 1.0
  {
    var u := now - start as real / clk as real - 1.0;
    if u < 0.0 then 0.0 else u
  }

  /** `uptimeBuffer[name] += a`, where operator[] first inserts 0. */
  function Credit(l: Ledger, n: string, a: real): (r: Ledger)
    ensures r.Keys == l.Keys + {n}
    ensures r[n] == (if n in l then l[n] else 0.0) + a
    ensures forall m :: m in l && m != n ==> r[m] == l[m]
  {
    l[n := (if n in l then l[n] else 0.0) + a]
  }

  /** A process that ended: its entry leaves the table and its uptime goes to
      its name in the ledger. */
  function Finalize(t: Table, l: Ledger, p: int, now: real, clk: nat): (r: (Table, Ledger))
    requires p in t && clk > 0
    ensures r.0.Keys == t.Keys - {p} && forall q :: q in r.0 ==> r.0[q] == t[q]
    ensures r.1.Keys == l.Keys + {t[p].name}
    ensures r.1[t[p].name] == (if t[p].name in l then l[t[p].name] else 0.0) + Clamped(now, t[p].startTick, clk)
    ensures forall n :: n in l ==> r.1[n] >= l[n]
    ensures forall n :: n in l && n != t[p].name ==> r.1[n] == l[n]
  {
    (t - {p}, Credit(l, t[p].name, Clamped(now, t[p].startTick, clk)))
  }

  /** The processes of `ds` finalized in turn. */
  function FinalizeAll(t: Table, l: Ledger, ds: seq<int>, now: real, clk: nat): (r: (Table, Ledger))
    requires clk > 0 && Distinct(ds) && forall q :: q in ds ==> q in t
    ensures r.0.Keys == t.Keys - set p | p in ds
    ensures forall q :: q in r.0 ==> r.0[q] == t[q]
    decreases |ds|
  {
    if |ds| == 0 then (t, l)
    else
      var k := |ds| - 1;
      assert ds == ds[..k] + [ds[k]];
      var f := FinalizeAll(t, l, ds[..k], now, clk);
      assert ds[k] !in ds[..k];
      Finalize(f.0, f.1, ds[k], now, clk)
  }

  /** What finalizing does to the ledger: the names of the ended processes
      join it, no amount goes down, and the names of other processes keep
      their amounts. */
  lemma {:induction false} FinalizeAllLedger(t: Table, l: Ledger, ds: seq<int>, now: real, clk: nat)
    requires clk > 0 && Distinct(ds) && forall q :: q in ds ==> q in t
    ensures FinalizeAll(t, l, ds, now, clk).1.Keys == l.Keys + set p | p in ds :: t[p].name
    ensures forall n :: n in l ==> FinalizeAll(t, l, ds, now, clk).1[n] >= l[n]
    ensures forall n :: n in l && (forall p :: p in ds ==> t[p].name != n) ==> FinalizeAll(t, l, ds, now, clk).1[n] == l[n]
    decreases |ds|
  {
    if |ds| > 0 {
      var k := |ds| - 1;
      assert ds == ds[..k] + [ds[k]];
      FinalizeAllLedger(t, l, ds[..k], now, clk);
      var f := FinalizeAll(t, l, ds[..k], now, clk);
      assert ds[k] !in ds[..k];
      assert FinalizeAll(t, l, ds, now, clk) == Finalize(f.0, f.1, ds[k], now, clk);
      assert f.0[ds[k]] == t[ds[k]];
    }
  }

  /** The differ loop of `timeTracking` as a function: walking `prev` against
      `cmp`, a pid equal to the next pid of `cmp` is kept, any other pid has
      ended.  The result is the ended pids in order, and how many of `cmp`
      were matched. */
  function Walk(prev: seq<int>, cmp: seq<int>): (r: (seq<int>, nat))
    ensures |r.0| + r.1 == |prev| && r.1 <= |cmp|
  {
    if |prev| == 0 then ([], 0)
    else if |cmp| > 0 && prev[0] == cmp[0] then
      var w := Walk(prev[1..], cmp[1..]);
      (w.0, w.1 + 1)
    else
      var w := Walk(prev[1..], cmp);
      ([prev[0]] + w.0, w.1)
  }

  /** The ended pids are pids of the old list, each once. */
  lemma {:induction false} WalkEndedFrom(prev: seq<int>, cmp: seq<int>)
    ensures forall x :: x in Walk(prev, cmp).0 ==> x in prev
    ensures Distinct(prev) ==> Distinct(Walk(prev, cmp).0)
    decreases |prev|
  {
    if |prev| > 0 {
      if |cmp| > 0 && prev[0] == cmp[0] {
        WalkEndedFrom(prev[1..], cmp[1..]);
      } else {
        WalkEndedFrom(prev[1..], cmp);
        assert Distinct(prev) ==> prev[0] !in prev[1..];
      }
    }
  }

  /** One pass of the loop: the pids `Walk` finds ended are finalized, then
      every pid of `next` from the number matched on is inserted. */
  function Cycle(t: Table, l: Ledger, prev: seq<int>, cmp: seq<int>, next: seq<int>, proc: Proc, now: real, clk: nat): (r: (Table, Ledger))
    requires clk > 0 && Readable(proc) && |cmp| <= |next|
    requires Distinct(prev) && forall q :: q in prev ==> q in t
  {
    var w := Walk(prev, cmp);
    WalkEndedFrom(prev, cmp);
    var f := FinalizeAll(t, l, w.0, now, clk);
    (InsertAll(f.0, next[w.1..], proc), f.1)
  }

  /** The pass as the source writes it: `i >= newPidList.size() - 1` ends the
      matching one pid short of the end of the new list. */
  function AsWrittenCycle(t: Table, l: Ledger, prev: seq<int>, next: seq<int>, proc: Proc, now: real, clk: nat): (Table, Ledger)
    requires clk > 0 && Readable(proc) && |next| > 0
    requires Distinct(prev) && forall q :: q in prev ==> q in t
  {
    Cycle(t, l, prev, next[..|next| - 1], next, proc, now, clk)
  }

  /** The pass with matching against the whole new list. */
  function CorrectedCycle(t: Table, l: Ledger, prev: seq<int>, next: seq<int>, proc: Proc, now: real, clk: nat): (Table, Ledger)
    requires clk > 0 && Readable(proc)
    requires Distinct(prev) && forall q :: q in prev ==> q in t
  {
    Cycle(t, l, prev, next, next, proc, now, clk)
  }

  /** `updateProcessBuffer`: reads and inserts every pid of the new list from
      index `pidList.size() - offset` on. */
  method UpdateProcessBuffer(processBuffer: Table, pidList: seq<int>, newPidList: seq<int>, offset: nat, proc: Proc)
    returns (t: Table)
    requires offset <= |pidList| && Readable(proc)
    ensures t == InsertAll(processBuffer, if |pidList| - offset < |newPidList| then newPidList[|pidList| - offset..] else [], proc)
  {
    t := processBuffer;
    if |pidList| - offset < |newPidList| {
      var lo := |pidList| - offset;
      var i := lo;
      while i < |newPidList|
        invariant lo <= i <= |newPidList|
        invariant t == InsertAll(processBuffer, newPidList[lo..i], proc)
      {
        t := ReadInto(t, newPidList[i], proc);
        InsertAllNext(processBuffer, newPidList, lo, i, proc);
        i := i + 1;
      }
      assert newPidList[lo..i] == newPidList[lo..];
    }
  }

  /** One more pid of a slice inserted. */
  lemma InsertAllNext(t: Table, s: seq<int>, lo: nat, i: nat, proc: Proc)
    requires Readable(proc) && lo <= i < |s|
    ensures InsertAll(t, s[lo..i + 1], proc) == InsertOne(InsertAll(t, s[lo..i], proc), s[i], proc)
  {
    var w := s[lo..i + 1];
    assert w[..|w| - 1] == s[lo..i] && w[|w| - 1] == s[i];
  }

  /** Walk's result put back together after the first `m` matches and the
      ended pids `dead`. */
  function Resumed(dead: seq<int>, m: nat, w: (seq<int>, nat)): (seq<int>, nat) {
    (dead + w.0, m + w.1)
  }

  /** One pass of the `while (true)` loop of `timeTracking` once the new pid
      list differs from the prev one: the differ loop over `i` and `offset`,
      then `updateProcessBuffer`, then `pidList = newPidList`.  The current
      uptime `now` and `CLK_TCK` are inputs; `proc` stands for the stat files. */
  method TimeTrackingCycle(processBuffer: Table, uptimeBuffer: Ledger, pidList: seq<int>, newPidList: seq<int>,
                           proc: Proc, now: real, clk: nat)
    returns (table: Table, ledger: Ledger, pids: seq<int>)
    requires clk > 0 && Readable(proc) && |newPidList| > 0
    requires Distinct(pidList) && forall q :: q in pidList ==> q in processBuffer
    ensures (table, ledger) == AsWrittenCycle(processBuffer, uptimeBuffer, pidList, newPidList, proc, now, clk)
    ensures pids == newPidList
  {
    var offset;
    table, ledger, offset := DifferLoop(processBuffer, uptimeBuffer, pidList, newPidList, now, clk);
    ghost var finalized := table;
    table := UpdateProcessBuffer(table, pidList, newPidList, offset, proc);
    assert table == InsertAll(finalized, newPidList[|pidList| - offset..], proc);
    pids := newPidList;
  }

  /** The `for` loop over `i` and `offset` in `timeTracking`. */
  method DifferLoop(processBuffer: Table, uptimeBuffer: Ledger, pidList: seq<int>, newPidList: seq<int>, now: real, clk: nat)
    returns (table: Table, ledger: Ledger, offset: nat)
    requires clk > 0 && |newPidList| > 0
    requires Distinct(pidList) && forall q :: q in pidList ==> q in processBuffer
    ensures offset <= |pidList| && Walk(pidList, newPidList[..|newPidList| - 1]).1 == |pidList| - offset
    ensures Finalized(processBuffer, uptimeBuffer, pidList, |pidList|, Walk(pidList, newPidList[..|newPidList| - 1]).0,
                      now, clk, table, ledger)
  {
    ghost var cmp := newPidList[..|newPidList| - 1];
    table, ledger := processBuffer, uptimeBuffer;
    offset := 0;
    var i := 0;
    ghost var m := 0;
    ghost var dead: seq<int> := [];
    ProgressStart(processBuffer, uptimeBuffer, pidList, cmp, now, clk);
    while i + offset < |pidList|
      invariant offset == |dead|
      invariant i == m || (i == m + 1 && m + offset == |pidList|)
      invariant Progress(processBuffer, uptimeBuffer, pidList, cmp, dead, m, now, clk, table, ledger)
      decreases |pidList| + 1 - (i + offset)
    {
      table, ledger, offset, dead := FinalizeEnded(processBuffer, uptimeBuffer, pidList, newPidList, i, offset,
                                                   now, clk, table, ledger, dead);
      ghost var more := i + offset < |pidList|;
      if more {
        WalkKept(pidList, cmp, dead, m);
        m := m + 1;
      }
      i := i + 1;
    }
    WalkDone(pidList, cmp, dead, m);
  }

  /** The inner `while` of the differ loop: while the pid at `i + offset`
      is not the one at `i` of the new list, or `i` has reached the last
      index of the new list, that pid has ended; it is finalized and `offset`
      moves on. */
  method FinalizeEnded(processBuffer: Table, uptimeBuffer: Ledger, pidList: seq<int>, newPidList: seq<int>,
                       i: nat, offset0: nat, now: real, clk: nat, table0: Table, ledger0: Ledger, ghost dead0: seq<int>)
    returns (table: Table, ledger: Ledger, offset: nat, ghost dead: seq<int>)
    requires |newPidList| > 0 && Distinct(pidList) && forall q :: q in pidList ==> q in processBuffer
    requires offset0 == |dead0| && i + offset0 < |pidList|
    requires Progress(processBuffer, uptimeBuffer, pidList, newPidList[..|newPidList| - 1], dead0, i, now, clk, table0, ledger0)
    ensures offset0 <= offset == |dead|
    ensures Progress(processBuffer, uptimeBuffer, pidList, newPidList[..|newPidList| - 1], dead, i, now, clk, table, ledger)
    ensures i + offset < |pidList| ==> i < |newPidList| - 1 && pidList[i + offset] == newPidList[i]
  {
    ghost var cmp := newPidList[..|newPidList| - 1];
    table, ledger, offset, dead := table0, ledger0, offset0, dead0;
    while i + offset < |pidList| && (i >= |newPidList| - 1 || pidList[i + offset] != newPidList[i])
      invariant offset0 <= offset == |dead|
      invariant Progress(processBuffer, uptimeBuffer, pidList, cmp, dead, i, now, clk, table, ledger)
      decreases |pidList| - (i + offset)
    {
      WalkEnded(pidList, cmp, dead, i);
      FinalizeNext(processBuffer, uptimeBuffer, pidList, i + offset, dead, now, clk, table, ledger);
      var p := pidList[i + offset];
      var process := table[p];
      var processUptime := Clamped(now, process.startTick, clk);
      table := table - {p};
      ledger := Credit(ledger, process.name, processUptime);
      dead := dead + [p];
      offset := offset + 1;
    }
  }

  /** The next pid has ended: Walk moves it to the ended pids. */
  lemma WalkEnded(prev: seq<int>, cmp: seq<int>, dead: seq<int>, m: nat)
    requires Walked(prev, cmp, dead, m) && m + |dead| < |prev|
    requires !(m < |cmp| && prev[m + |dead|] == cmp[m])
    ensures Walked(prev, cmp, dead + [prev[m + |dead|]], m)
  {
    var k := m + |dead|;
    assert prev[k..][1..] == prev[k + 1..];
    var w := Walk(prev[k + 1..], cmp[m..]);
    assert Walk(prev[k..], cmp[m..]) == ([prev[k]] + w.0, w.1);
    Associative(dead, [prev[k]], w.0);
  }

  /** Before the first step nothing is matched, ended or finalized. */
  lemma ProgressStart(t: Table, l: Ledger, prev: seq<int>, cmp: seq<int>, now: real, clk: nat)
    requires clk > 0
    ensures Progress(t, l, prev, cmp, [], 0, now, clk, t, l)
  {
    assert prev[0..] == prev && cmp[0..] == cmp;
    assert [] + Walk(prev, cmp).0 == Walk(prev, cmp).0;
  }

  /** Once every pid of `prev` is placed, the walk is complete. */
  lemma WalkDone(prev: seq<int>, cmp: seq<int>, dead: seq<int>, m: nat)
    requires Walked(prev, cmp, dead, m) && m + |dead| == |prev|
    ensures Walk(prev, cmp) == (dead, m)
  {
    assert prev[m + |dead|..] == [];
    assert dead + [] == dead;
  }

  /** The next pid is the next one of `cmp`: Walk keeps it. */
  lemma WalkKept(prev: seq<int>, cmp: seq<int>, dead: seq<int>, m: nat)
    requires Walked(prev, cmp, dead, m) && m + |dead| < |prev|
    requires m < |cmp| && prev[m + |dead|] == cmp[m]
    ensures Walked(prev, cmp, dead, m + 1)
  {
    var k := m + |dead|;
    assert prev[k..][1..] == prev[k + 1..];
    assert cmp[m..][1..] == cmp[m + 1..];
  }

  /** The state between two steps of the differ loop: the walk has matched
      `m` pids and found those of `dead` ended, and exactly those are finalized. */
  predicate Progress(t: Table, l: Ledger, prev: seq<int>, cmp: seq<int>, dead: seq<int>, m: nat, now: real, clk: nat,
                     table: Table, ledger: Ledger)
  {
    Walked(prev, cmp, dead, m) && Finalized(t, l, prev, m + |dead|, dead, now, clk, table, ledger)
  }

  /** How far the walk has got: the first `m` pids of `cmp` matched, and
      the pids of `dead` found ended. */
  predicate Walked(prev: seq<int>, cmp: seq<int>, dead: seq<int>, m: nat) {
    m + |dead| <= |prev| && m <= |cmp| &&
    Walk(prev, cmp) == Resumed(dead, m, Walk(prev[m + |dead|..], cmp[m..]))
  }

  /** The table and ledger after finalizing the pids of `dead`, none of which
      is among the pids of `prev` from `k` on. */
  predicate Finalized(t: Table, l: Ledger, prev: seq<int>, k: nat, dead: seq<int>, now: real, clk: nat,
                      table: Table, ledger: Ledger)
  {
    clk > 0 && Distinct(dead) && (forall q :: q in dead ==> q in t) &&
    (forall j :: k <= j < |prev| ==> prev[j] !in dead) &&
    (table, ledger) == FinalizeAll(t, l, dead, now, clk)
  }

  /** Finalizing the pid at `k` extends FinalizeAll by one step. */
  lemma FinalizeNext(t: Table, l: Ledger, prev: seq<int>, k: nat, dead: seq<int>, now: real, clk: nat,
                     table: Table, ledger: Ledger)
    requires k < |prev| && Distinct(prev) && (forall q :: q in prev ==> q in t)
    requires Finalized(t, l, prev, k, dead, now, clk, table, ledger)
    ensures prev[k] in table && table[prev[k]] == t[prev[k]]
    ensures var f := Finalize(table, ledger, prev[k], now, clk);
      Finalized(t, l, prev, k + 1, dead + [prev[k]], now, clk, f.0, f.1)
  {
    var p := prev[k];
    assert (dead + [p])[..|dead|] == dead;
    forall j | k + 1 <= j < |prev|
      ensures prev[j] !in dead + [p]
    {
      assert prev[j] != prev[k];
    }
  }

  /** The pids of `s` not in `d`, in order: the processes that go on running. */
  function Without(s: seq<int>, d: set<int>): seq<int> {
    if |s| == 0 then [] else (if s[0] in d then [] else [s[0]]) + Without(s[1..], d)
  }

  /** The pids of `s` in `d`, in order: the processes that ended. */
  function Within(s: seq<int>, d: set<int>): seq<int> {
    if |s| == 0 then [] else (if s[0] in d then [s[0]] else []) + Within(s[1..], d)
  }

  /** Without keeps the pids outside `d`, Within those inside. */
  lemma {:induction false} Parted(s: seq<int>, d: set<int>)
    ensures forall x :: x in Without(s, d) <==> x in s && x !in d
    ensures forall x :: x in Within(s, d) <==> x in s && x in d
    decreases |s|
  {
    if |s| > 0 {
      Parted(s[1..], d);
      assert s == [s[0]] + s[1..];
    }
  }

  /** The shape the differ loop is written for: the new list is the old list
      with the pids of `d` gone and the new pids `x` appended.  Walking the old
      list against such a list finds exactly the pids of `d` ended and matches
      every other one. */
  lemma {:induction false} WalkOfShape(prev: seq<int>, d: set<int>, x: seq<int>)
    requires Distinct(prev) && forall q :: q in x ==> q !in prev
    ensures Walk(prev, Without(prev, d) + x) == (Within(prev, d), |Without(prev, d)|)
    decreases |prev|
  {
    if |prev| > 0 {
      var rest := prev[1..];
      DistinctTail(prev);
      WalkOfShape(rest, d, x);
      var cmp := Without(prev, d) + x;
      if prev[0] in d {
        assert Without(prev, d) == [] + Without(rest, d);
        assert Within(prev, d) == [prev[0]] + Within(rest, d);
        assert cmp == Without(rest, d) + x;
        assert |cmp| > 0 ==> cmp[0] != prev[0] by {
          if |cmp| > 0 {
            Parted(rest, d);
            assert cmp[0] in cmp;
          }
        }
      } else {
        assert Without(prev, d) == [prev[0]] + Without(rest, d);
        assert Within(prev, d) == [] + Within(rest, d);
        assert cmp == [prev[0]] + (Without(rest, d) + x);
        assert cmp[0] == prev[0] && cmp[1..] == Without(rest, d) + x;
        var w := Walk(rest, cmp[1..]);
        assert Walk(prev, cmp) == (w.0, w.1 + 1);
        assert w == (Within(rest, d), |Without(rest, d)|);
        assert [] + Within(rest, d) == Within(rest, d);
        assert |Without(prev, d)| == |Without(rest, d)| + 1;
      }
    }
  }

  /** The tail of a list without repeats has none, and lacks the head. */
  lemma DistinctTail(s: seq<int>)
    requires |s| > 0 && Distinct(s)
    ensures Distinct(s[1..]) && s[0] !in s[1..]
    ensures forall q :: q in s[1..] ==> q in s
  {
    var rest := s[1..];
    forall i, j | 0 <= i < j < |rest|
      ensures rest[i] != rest[j]
    {
      assert rest[i] == s[i + 1] && rest[j] == s[j + 1];
    }
    forall j | 0 <= j < |rest|
      ensures rest[j] != s[0] && rest[j] in s
    {
      assert rest[j] == s[j + 1];
    }
  }

  /** On a new list of that shape the corrected pass finalizes exactly the
      pids of `d` and inserts the new pids. */
  lemma CorrectedShape(t: Table, l: Ledger, prev: seq<int>, d: set<int>, x: seq<int>, proc: Proc, now: real, clk: nat)
    requires clk > 0 && Readable(proc)
    requires Distinct(prev) && (forall q :: q in prev ==> q in t) && (forall q :: q in x ==> q !in prev)
    ensures Distinct(Within(prev, d)) && forall q :: q in Within(prev, d) ==> q in t
    ensures var f := FinalizeAll(t, l, Within(prev, d), now, clk);
      CorrectedCycle(t, l, prev, Without(prev, d) + x, proc, now, clk) == (InsertAll(f.0, x, proc), f.1)
  {
    WalkOfShape(prev, d, x);
    WalkEndedFrom(prev, Without(prev, d) + x);
    assert (Without(prev, d) + x)[|Without(prev, d)|..] == x;
  }

  /** What the corrected pass leaves in the table: the processes that ran
      before and did not end, and the new pids whose stat file opens. */
  lemma CorrectedShapeKeys(t: Table, l: Ledger, prev: seq<int>, d: set<int>, x: seq<int>, proc: Proc, now: real, clk: nat)
    requires clk > 0 && Readable(proc)
    requires Distinct(prev) && (forall q :: q in prev ==> q in t) && (forall q :: q in x ==> q !in prev)
    ensures var r := CorrectedCycle(t, l, prev, Without(prev, d) + x, proc, now, clk);
      forall p :: p in r.0 <==> (p in t && !(p in prev && p in d)) || (p in x && p in proc)
  {
    CorrectedShape(t, l, prev, d, x, proc, now, clk);
    Parted(prev, d);
  }

  /** When at least one new pid is appended, the pass as written agrees with
      the corrected one: the last pid it leaves out of the matching is new. */
  lemma AsWrittenWithNewPids(t: Table, l: Ledger, prev: seq<int>, d: set<int>, x: seq<int>, proc: Proc, now: real, clk: nat)
    requires clk > 0 && Readable(proc) && |x| > 0
    requires Distinct(prev) && (forall q :: q in prev ==> q in t) && (forall q :: q in x ==> q !in prev)
    ensures AsWrittenCycle(t, l, prev, Without(prev, d) + x, proc, now, clk)
         == CorrectedCycle(t, l, prev, Without(prev, d) + x, proc, now, clk)
  {
    var next := Without(prev, d) + x;
    assert Walk(prev, next[..|next| - 1]) == Walk(prev, next) by {
      var x' := x[..|x| - 1];
      assert next[..|next| - 1] == Without(prev, d) + x';
      assert forall q :: q in x' ==> q in x;
      WalkOfShape(prev, d, x');
      WalkOfShape(prev, d, x);
    }
    SameWalkSameCycle(t, l, prev, next[..|next| - 1], next, next, proc, now, clk);
  }

  /** Two matchings that end the same pids give the same pass. */
  lemma SameWalkSameCycle(t: Table, l: Ledger, prev: seq<int>, cmp: seq<int>, cmp': seq<int>, next: seq<int>,
                          proc: Proc, now: real, clk: nat)
    requires clk > 0 && Readable(proc) && |cmp| <= |next| && |cmp'| <= |next|
    requires Distinct(prev) && forall q :: q in prev ==> q in t
    requires Walk(prev, cmp) == Walk(prev, cmp')
    ensures Cycle(t, l, prev, cmp, next, proc, now, clk) == Cycle(t, l, prev, cmp', next, proc, now, clk)
  {
  }

  /** The pass as written, when no pid is appended: of `[5, 6]` only 5 ended,
      yet 6 is finalized as well (its uptime so far goes to its name) and then
      read again from its stat file as if it had just started. */
  lemma AsWrittenRefinalizes(a: string, b: string, s5: int, s6: int, l: Ledger, proc: Proc, now: real, clk: nat)
    requires clk > 0 && Readable(proc) && 6 in proc
    ensures var t := map[5 := Process(a, s5), 6 := Process(b, s6)];
      var r := AsWrittenCycle(t, l, [5, 6], [6], proc, now, clk);
      r.0 == map[6 := ReadProcess(proc, 6)] &&
      r.1 == Credit(Credit(l, a, Clamped(now, s5, clk)), b, Clamped(now, s6, clk))
  {
    var t := map[5 := Process(a, s5), 6 := Process(b, s6)];
    var next := [6];
    assert next[..|next| - 1] == [] && next[0..] == next;
    WalkNoneMatched([5, 6]);
    CycleOf(t, l, [5, 6], [], next, proc, now, clk, [5, 6], 0);
    FinalizeTwo(t, l, 5, 6, now, clk);
    var none: Table := map[];
    assert t - {5} - {6} == none;
    InsertSingle(none, 6, proc);
  }

  /** A pass whose walk is known: the ended pids finalized, then the new
      pids from the number matched on inserted. */
  lemma CycleOf(t: Table, l: Ledger, prev: seq<int>, cmp: seq<int>, next: seq<int>, proc: Proc, now: real, clk: nat,
                dead: seq<int>, m: nat)
    requires clk > 0 && Readable(proc) && |cmp| <= |next|
    requires Distinct(prev) && forall q :: q in prev ==> q in t
    requires Walk(prev, cmp) == (dead, m)
    ensures m <= |next| && Distinct(dead) && forall q :: q in dead ==> q in t
    ensures var f := FinalizeAll(t, l, dead, now, clk);
      Cycle(t, l, prev, cmp, next, proc, now, clk) == (InsertAll(f.0, next[m..], proc), f.1)
  {
    WalkEndedFrom(prev, cmp);
  }

  /** One pid whose stat file opens, inserted into a table without it. */
  lemma InsertSingle(t: Table, p: int, proc: Proc)
    requires Readable(proc) && p in proc && p !in t
    ensures InsertAll(t, [p], proc) == t[p := ReadProcess(proc, p)]
  {
    assert [p][..0] == [];
  }

  /** The same pass corrected: 5 is finalized, 6 keeps its entry and nothing
      is read again. */
  lemma CorrectedKeepsRunning(a: string, b: string, s5: int, s6: int, l: Ledger, proc: Proc, now: real, clk: nat)
    requires clk > 0 && Readable(proc)
    ensures var t := map[5 := Process(a, s5), 6 := Process(b, s6)];
      var r := CorrectedCycle(t, l, [5, 6], [6], proc, now, clk);
      r.0 == map[6 := Process(b, s6)] && r.1 == Credit(l, a, Clamped(now, s5, clk))
  {
    var t := map[5 := Process(a, s5), 6 := Process(b, s6)];
    assert Walk([5, 6], [6]) == ([5], 1) by {
      assert [5, 6][1..] == [6] && [6][1..] == [];
      assert Walk([], []) == ([], 0);
      assert Walk([6], [6]) == ([], 1);
      assert Walk([5, 6], [6]) == ([5] + [], 1) && [5] + [] == [5];
    }
    assert [5][..0] == [];
    assert t - {5} == map[6 := Process(b, s6)];
    assert [6][1..] == [];
  }

  /** Against an empty list no pid matches: every pid has ended. */
  lemma {:induction false} WalkNoneMatched(prev: seq<int>)
    ensures Walk(prev, []) == (prev, 0)
    decreases |prev|
  {
    if |prev| > 0 {
      WalkNoneMatched(prev[1..]);
      assert [prev[0]] + prev[1..] == prev;
    }
  }

  /** Two pids finalized: both entries go and both names are credited, in turn. */
  lemma FinalizeTwo(t: Table, l: Ledger, p: int, q: int, now: real, clk: nat)
    requires clk > 0 && p != q && p in t && q in t
    ensures FinalizeAll(t, l, [p, q], now, clk)
         == (t - {p} - {q}, Credit(Credit(l, t[p].name, Clamped(now, t[p].startTick, clk)), t[q].name, Clamped(now, t[q].startTick, clk)))
  {
    var ds := [p, q];
    assert ds[..1] == [p] && ds[1] == q && [p][..0] == [];
    var g := FinalizeAll(t, l, ds[..1], now, clk);
    assert FinalizeAll(t, l, ds, now, clk) == Finalize(g.0, g.1, ds[1], now, clk);
    var e: seq<int> := [];
    assert FinalizeAll(t, l, e, now, clk) == (t, l);
    assert ds[..1][..0] == e && ds[..1][0] == p;
    assert g == Finalize(t, l, p, now, clk);
    var f := g;
    assert f.0[q] == t[q];
  }

  /** A list walked against itself: every pid matches and none has ended. */
  lemma {:induction false} WalkSelf(prev: seq<int>)
    ensures Walk(prev, prev) == ([], |prev|)
    decreases |prev|
  {
    if |prev| > 0 {
      WalkSelf(prev[1..]);
    }
  }

  /** A pass over an unchanged list changes nothing (the source never runs
      one: it polls until the list differs). */
  lemma CorrectedSameList(t: Table, l: Ledger, prev: seq<int>, proc: Proc, now: real, clk: nat)
    requires clk > 0 && Readable(proc)
    requires Distinct(prev) && forall q :: q in prev ==> q in t
    ensures CorrectedCycle(t, l, prev, prev, proc, now, clk) == (t, l)
  {
    WalkSelf(prev);
    assert prev[|prev|..] == [];
  }

  /** Adding the last pid that `Without` keeps to `d` drops just that pid. */
  lemma {:induction false} WithoutLast(prev: seq<int>, d: set<int>)
    requires Distinct(prev) && |Without(prev, d)| > 0
    ensures var w := Without(prev, d);
      Without(prev, d + {w[|w| - 1]}) == w[..|w| - 1]
    decreases |prev|
  {
    var w := Without(prev, d);
    var last := w[|w| - 1];
    var rest := prev[1..];
    DistinctTail(prev);
    if prev[0] in d {
      assert w == Without(rest, d);
      WithoutLast(rest, d);
    } else {
      assert w == [prev[0]] + Without(rest, d);
      if |Without(rest, d)| == 0 {
        WithoutShrinks(rest, d, d + {last});
      } else {
        WithoutLast(rest, d);
        Parted(rest, d);
        assert last == Without(rest, d)[|Without(rest, d)| - 1];
        assert last in Without(rest, d);
        assert last != prev[0];
        assert w[..|w| - 1] == [prev[0]] + Without(rest, d)[..|Without(rest, d)| - 1];
      }
    }
  }

  /** Dropping more pids keeps no more. */
  lemma {:induction false} WithoutShrinks(s: seq<int>, d: set<int>, e: set<int>)
    requires d <= e
    ensures |Without(s, e)| <= |Without(s, d)|
    decreases |s|
  {
    if |s| > 0 {
      WithoutShrinks(s[1..], d, e);
    }
  }

  /** The pass as written when the new list only lost pids: the last pid
      that goes on running is finalized as if it had ended, then read again
      from its stat file as a new process. */
  lemma AsWrittenNoNewPids(t: Table, l: Ledger, prev: seq<int>, d: set<int>, proc: Proc, now: real, clk: nat)
    requires clk > 0 && Readable(proc) && |Without(prev, d)| > 0
    requires Distinct(prev) && forall q :: q in prev ==> q in t
    ensures var w := Without(prev, d);
      var last := w[|w| - 1];
      var ended := Within(prev, d + {last});
      last in ended && Distinct(ended) && (forall q :: q in ended ==> q in t) &&
      var f := FinalizeAll(t, l, ended, now, clk);
      AsWrittenCycle(t, l, prev, w, proc, now, clk) == (InsertAll(f.0, [last], proc), f.1)
  {
    var w := Without(prev, d);
    var last := w[|w| - 1];
    WithoutLast(prev, d);
    Parted(prev, d);
    Parted(prev, d + {last});
    assert last in w;
    assert w[..|w| - 1] == Without(prev, d + {last}) + [];
    WalkOfShape(prev, d + {last}, []);
    WalkEndedFrom(prev, Without(prev, d + {last}));
    assert w[|w| - 1..] == [last];
  }

  /** Either way, once every new pid's stat file opens, a pass leaves in the
      table exactly the pids that were not in the old list and the pids of the
      new list (even the pid the pass as written finalizes by mistake is back). */
  lemma AsWrittenShapeKeys(t: Table, l: Ledger, prev: seq<int>, d: set<int>, x: seq<int>, proc: Proc, now: real, clk: nat)
    requires clk > 0 && Readable(proc) && |Without(prev, d) + x| > 0
    requires Distinct(prev) && (forall q :: q in prev ==> q in t) && (forall q :: q in x ==> q !in prev)
    requires forall q :: q in Without(prev, d) + x ==> q in proc
    ensures var r := AsWrittenCycle(t, l, prev, Without(prev, d) + x, proc, now, clk);
      forall p :: p in r.0 <==> (p in t && p !in prev) || p in Without(prev, d) + x
  {
    Parted(prev, d);
    if |x| > 0 {
      AsWrittenWithNewPids(t, l, prev, d, x, proc, now, clk);
      CorrectedShapeKeys(t, l, prev, d, x, proc, now, clk);
    } else {
      var w := Without(prev, d);
      assert w + x == w;
      AsWrittenNoNewPids(t, l, prev, d, proc, now, clk);
      var last := w[|w| - 1];
      assert last in w;
      Parted(prev, d + {last});
    }
  }

  /** A new pid whose stat file does not open is left out of the table
      (`updateProcessBuffer` only logs it), yet the pass hands on the whole new
      list as the next `pidList`. The next pass thus starts with a listed pid
      that has no entry, which its differ looks up and erases through
      `processBuffer.find`, on `end()`, once that pid is gone. */
  lemma AsWrittenLosesPid(t: Table, l: Ledger, prev: seq<int>, next: seq<int>, proc: Proc, now: real, clk: nat, x: int)
    requires clk > 0 && Readable(proc) && |next| > 0
    requires Distinct(prev) && forall q :: q in prev ==> q in t
    requires x in next && x !in proc && x !in t
    ensures x !in AsWrittenCycle(t, l, prev, next, proc, now, clk).0
    ensures !(forall q :: q in next ==> q in AsWrittenCycle(t, l, prev, next, proc, now, clk).0)
  {
    var w := Walk(prev, next[..|next| - 1]);
    CycleOf(t, l, prev, next[..|next| - 1], next, proc, now, clk, w.0, w.1);
  }

  /** The smallest case: from an empty table, a new list `[7]` whose stat file
      does not open leaves the table empty while the list handed on is `[7]`. */
  lemma AsWrittenUnreadPid(l: Ledger, now: real, clk: nat)
    requires clk > 0
    ensures var proc: Proc := map[];
      var r := AsWrittenCycle(map[], l, [], [7], proc, now, clk);
      r == (map[], l) && 7 in [7] && 7 !in r.0
  {
    var proc: Proc := map[];
    var none: Table := map[];
    var e: seq<int> := [];
    assert Walk(e, [7][..0]) == (e, 0);
    assert FinalizeAll(none, l, e, now, clk) == (none, l);
    assert InsertAll(none, [7][0..], proc) == none;
  }

  /** Finalizing with the `find(...) != end()` test the differ leaves out: a
      listed pid without an entry is passed over. */
  function CorrectedFinalizeAll(t: Table, l: Ledger, ds: seq<int>, now: real, clk: nat): (r: (Table, Ledger))
    requires clk > 0
    ensures r.0.Keys == t.Keys - set p | p in ds
    ensures forall q :: q in r.0 ==> r.0[q] == t[q]
    decreases |ds|
  {
    if |ds| == 0 then (t, l)
    else
      var k := |ds| - 1;
      assert ds == ds[..k] + [ds[k]];
      var f := CorrectedFinalizeAll(t, l, ds[..k], now, clk);
      if ds[k] in f.0 then Finalize(f.0, f.1, ds[k], now, clk) else f
  }

  /** Where every listed pid has an entry, the test changes nothing. */
  lemma {:induction false} CorrectedFinalizeAgrees(t: Table, l: Ledger, ds: seq<int>, now: real, clk: nat)
    requires clk > 0 && Distinct(ds) && forall q :: q in ds ==> q in t
    ensures CorrectedFinalizeAll(t, l, ds, now, clk) == FinalizeAll(t, l, ds, now, clk)
    decreases |ds|
  {
    if |ds| > 0 {
      var k := |ds| - 1;
      assert ds == ds[..k] + [ds[k]];
      assert ds[k] !in ds[..k];
      CorrectedFinalizeAgrees(t, l, ds[..k], now, clk);
    }
  }

  /** What the tested finalizing does to the ledger: the names of the ended
      pids that have an entry join it, no amount goes down, and every other
      name keeps its amount; a pid without an entry credits nothing. */
  lemma {:induction false} CorrectedFinalizeLedger(t: Table, l: Ledger, ds: seq<int>, now: real, clk: nat)
    requires clk > 0 && Distinct(ds)
    ensures CorrectedFinalizeAll(t, l, ds, now, clk).1.Keys == l.Keys + set p | p in ds && p in t :: t[p].name
    ensures forall n :: n in l ==> CorrectedFinalizeAll(t, l, ds, now, clk).1[n] >= l[n]
    ensures forall n :: n in l && (forall p :: p in ds && p in t ==> t[p].name != n) ==>
      CorrectedFinalizeAll(t, l, ds, now, clk).1[n] == l[n]
    decreases |ds|
  {
    if |ds| > 0 {
      var k := |ds| - 1;
      assert ds == ds[..k] + [ds[k]];
      CorrectedFinalizeLedger(t, l, ds[..k], now, clk);
      var f := CorrectedFinalizeAll(t, l, ds[..k], now, clk);
      assert ds[k] !in ds[..k];
      PresentNames(t, ds);
      if ds[k] in t {
        assert f.0[ds[k]] == t[ds[k]];
      }
    }
  }

  /** The names of the listed pids that have an entry, one pid at a time. */
  lemma PresentNames(t: Table, ds: seq<int>)
    requires |ds| > 0
    ensures var k := |ds| - 1;
      (set p | p in ds && p in t :: t[p].name)
      == (set p | p in ds[..k] && p in t :: t[p].name) + (if ds[k] in t then {t[ds[k]].name} else {})
  {
    var k := |ds| - 1;
    var all := set p | p in ds && p in t :: t[p].name;
    var front := set p | p in ds[..k] && p in t :: t[p].name;
    var last: set<string> := if ds[k] in t then {t[ds[k]].name} else {};
    forall x | x in all
      ensures x in front + last
    {
      var p :| p in ds && p in t && t[p].name == x;
      if p != ds[k] {
        assert p in ds[..k];
      }
    }
    forall x | x in front + last
      ensures x in all
    {
      if x in front {
        var p :| p in ds[..k] && p in t && t[p].name == x;
        assert ds == ds[..k] + [ds[k]];
        assert p in ds && p in t && t[p].name == x;
      } else {
        var p := ds[k];
        assert p in ds && p in t && t[p].name == x;
      }
    }
    assert all == front + last;
  }

  /** The corrected pass with the test as well: matching against the whole
      new list, and finalizing only the ended pids that have an entry. It is
      defined for every table, so passes chain whatever the stat files do. */
  function CorrectedLookupCycle(t: Table, l: Ledger, prev: seq<int>, next: seq<int>, proc: Proc, now: real, clk: nat)
    : (r: (Table, Ledger))
    requires clk > 0 && Readable(proc)
    ensures forall p :: p in r.0 <==> (p in t && p !in Walk(prev, next).0) || (p in next[Walk(prev, next).1..] && p in proc)
  {
    var w := Walk(prev, next);
    var f := CorrectedFinalizeAll(t, l, w.0, now, clk);
    (InsertAll(f.0, next[w.1..], proc), f.1)
  }

  /** Where every old pid has an entry, the tested pass is the corrected one. */
  lemma CorrectedLookupAgrees(t: Table, l: Ledger, prev: seq<int>, next: seq<int>, proc: Proc, now: real, clk: nat)
    requires clk > 0 && Readable(proc)
    requires Distinct(prev) && forall q :: q in prev ==> q in t
    ensures CorrectedLookupCycle(t, l, prev, next, proc, now, clk) == CorrectedCycle(t, l, prev, next, proc, now, clk)
  {
    var w := Walk(prev, next);
    CycleOf(t, l, prev, next, next, proc, now, clk, w.0, w.1);
    CorrectedFinalizeAgrees(t, l, w.0, now, clk);
  }

  /** The state the pass as written leaves behind, `[7]` listed without an
      entry, is handled: when 7 is gone and 8 has started, nothing is credited
      and 8 is read. */
  lemma CorrectedLookupPassesOver(l: Ledger, proc: Proc, now: real, clk: nat)
    requires clk > 0 && Readable(proc) && 8 in proc
    ensures CorrectedLookupCycle(map[], l, [7], [8], proc, now, clk) == (map[8 := ReadProcess(proc, 8)], l)
  {
    var none: Table := map[];
    var e: seq<int> := [];
    assert [7][1..] == e;
    assert Walk(e, [8]) == (e, 0);
    assert Walk([7], [8]) == ([7] + e, 0) && [7] + e == [7];
    assert [7][..0] == e;
    assert CorrectedFinalizeAll(none, l, e, now, clk) == (none, l);
    assert CorrectedFinalizeAll(none, l, [7], now, clk) == (none, l);
    assert [8][0..] == [8];
    InsertSingle(none, 8, proc);
  }
}
