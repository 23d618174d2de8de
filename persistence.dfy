/** `save` (timeTracking.cpp): when the daemon stops, every process still
    running is credited as if it had just ended, the uptime file is read as
    a stream of whitespace-separated words, its amounts are merged into the
    ledger, and the ledger is written back one `name: value` line per name. */
module Persistence {
  import opened Wrappers
  import opened Text
  import opened Decimal
  import opened Order
  import opened Util
  import opened Tracking

  /** Why `save` does not get to write the file. */
  datatype SaveError =
    /** std::stof throws invalid_argument on a word with no digit ("" or "."). */
    | NoNumber(word: string)
    /** The file ends while a name is being gathered: the source then loops
        forever, since a failed `>>` leaves the last word in `buf`. */
    | Unterminated(name: string)

  /** One record of the uptime file: a name and the seconds saved for it. */
  datatype Entry = Entry(name: string, uptime: real)

  // ---------------------------------------------------------------------
  // Crediting the processes still running (timeTracking.cpp:224-229)
  // ---------------------------------------------------------------------

  /** The seconds a process of start tick `start` has been running when the
      system has been up `now` seconds; unlike the differ loop, no second is
      taken off and nothing is clamped. */
  function Elapsed(now: real, start: int, clk: nat): (e: real)
    requires clk > 0
    ensures e + start as real / clk as real == now
  {
    now - start as real / clk as real
  }

  /** The ledger after crediting the processes of `ps` in turn (pids the
      table does not hold are passed over; the range-for visits none). */
  function CreditLive(t: Table, l: Ledger, ps: seq<int>, now: real, clk: nat): Ledger
    requires clk > 0
    decreases |ps|
  {
    if |ps| == 0 then l
    else
      var k := |ps| - 1;
      var f := CreditLive(t, l, ps[..k], now, clk);
      if ps[k] in t then Credit(f, t[ps[k]].name, Elapsed(now, t[ps[k]].startTick, clk)) else f
  }

  /** Crediting adds the names of the running processes to the ledger and
      changes no other name's amount. */
  lemma {:induction false} CreditLiveLedger(t: Table, l: Ledger, ps: seq<int>, now: real, clk: nat)
    requires clk > 0
    ensures CreditLive(t, l, ps, now, clk).Keys == l.Keys + HeldNames(t, ps)
    ensures forall n :: n in l && n !in HeldNames(t, ps) ==> CreditLive(t, l, ps, now, clk)[n] == l[n]
    decreases |ps|
  {
    if |ps| > 0 {
      var k := |ps| - 1;
      var front := ps[..k];
      assert ps == front + [ps[k]];
      CreditLiveLedger(t, l, front, now, clk);
      HeldNamesNext(t, ps);
    }
  }

  /** The names of the pids of `ps` that the table holds. */
  function HeldNames(t: Table, ps: seq<int>): set<string> {
    set p | p in ps && p in t :: t[p].name
  }

  lemma HeldNamesNext(t: Table, ps: seq<int>)
    requires |ps| > 0
    ensures var k := |ps| - 1;
      HeldNames(t, ps) == HeldNames(t, ps[..k]) + (if ps[k] in t then {t[ps[k]].name} else {})
  {
    var k := |ps| - 1;
    var front := ps[..k];
    var extra: set<string> := if ps[k] in t then {t[ps[k]].name} else {};
    forall n | n in HeldNames(t, ps)
      ensures n in HeldNames(t, front) + extra
    {
      var p :| p in ps && p in t && t[p].name == n;
      var i :| 0 <= i < |ps| && ps[i] == p;
      if i < k {
        assert front[i] == p;
      }
    }
    forall n | n in HeldNames(t, front) + extra
      ensures n in HeldNames(t, ps)
    {
      if n in HeldNames(t, front) {
        var p :| p in front && p in t && t[p].name == n;
        var i :| 0 <= i < k && front[i] == p;
        assert ps[i] == p && p in ps;
        assert t[p].name in HeldNames(t, ps);
      } else {
        var p := ps[k];
        assert p in ps && p in t && n == t[p].name;
        assert t[p].name in HeldNames(t, ps);
      }
    }
  }

  /** A process that started at tick 0 is credited the whole uptime. */
  lemma CreditFromBoot(t: Table, l: Ledger, p: int, now: real, clk: nat)
    requires clk > 0 && p in t && t[p].startTick == 0 && t[p].name !in l
    ensures CreditLive(t, l, [p], now, clk) == l[t[p].name := now]
  {
    assert [p][..0] == [];
  }

  /** The range-for over the table of `save`, in pid order. */
  method CreditProcesses(processBuffer: Table, uptimeBuffer: Ledger, now: real, clk: nat) returns (u: Ledger)
    requires clk > 0
    ensures u == CreditLive(processBuffer, uptimeBuffer, SortedPids(processBuffer.Keys), now, clk)
  {
    var pids := PidList(processBuffer.Keys);
    u := uptimeBuffer;
    var k := 0;
    while k < |pids|
      invariant k <= |pids|
      invariant u == CreditLive(processBuffer, uptimeBuffer, pids[..k], now, clk)
    {
      var processName := processBuffer[pids[k]].name;
      var processStartTime := processBuffer[pids[k]].startTick;
      var processUptime := Elapsed(now, processStartTime, clk);
      u := Credit(u, processName, processUptime);
      assert pids[..k + 1][..k] == pids[..k];
      k := k + 1;
    }
    assert pids[..k] == pids;
  }

  // ---------------------------------------------------------------------
  // Reading the uptime file as words (`>>` into a std::string)
  // ---------------------------------------------------------------------

  /** What `>>` can store in a string: a non-empty run of non-whitespace. */
  predicate IsWord(s: string) { |s| > 0 && NoSpace(s) }

  /** Every element is a word. */
  predicate AllWords(ws: seq<string>) { forall i :: 0 <= i < |ws| ==> IsWord(ws[i]) }

  /** The length of the run of non-whitespace that starts `s`. */
  function WordLen(s: string): (n: nat)
    ensures n <= |s| && NoSpace(s[..n]) && (n < |s| ==> IsSpace(s[n]))
    ensures |s| > 0 && !IsSpace(s[0]) ==> n > 0
  {
    if |s| > 0 && !IsSpace(s[0]) then
      var n := 1 + WordLen(s[1..]);
      assert s[..n] == [s[0]] + s[1..][..n - 1];
      n
    else 0
  }

  /** The words successive `>>` extract from the text `s`. */
  function Words(s: string): (r: seq<string>)
    ensures AllWords(r)
    decreases |s|
  {
    if |s| == 0 then []
    else if IsSpace(s[0]) then Words(s[1..])
    else
      var n := WordLen(s);
      [s[..n]] + Words(s[n..])
  }

  // ---------------------------------------------------------------------
  // Parsing the records (timeTracking.cpp:244-252)
  // ---------------------------------------------------------------------

  /** The inner `while (!isFloat(buf))`: `buf` is `ws[0]`; words are added to
      the name, each after a space, up to the first one `isFloat` accepts.
      The result is the name, that word, and the words after it. */
  function Gather(ws: seq<string>, name: string): (r: Result<(string, string, seq<string>), SaveError>)
    requires |ws| > 0
    ensures r.Success? ==> |r.value.0| >= |name| && FloatText(r.value.1) && |r.value.2| < |ws|
    decreases |ws|
  {
    if FloatText(ws[0]) then Success((name, ws[0], ws[1..]))
    else if |ws| == 1 then Failure(Unterminated(name + " " + ws[0]))
    else Gather(ws[1..], name + " " + ws[0])
  }

  /** One pass of the outer `while`: the first word starts the name, the
      gathered name loses its last character (the `:`), and the word
      `isFloat` accepted is read by std::stof.  With no word after the
      first, `buf` stays empty and std::stof("") throws. */
  function ReadEntry(ws: seq<string>): (r: Result<(Entry, seq<string>), SaveError>)
    requires |ws| > 0 && IsWord(ws[0])
    ensures r.Success? ==> |r.value.1| < |ws|
  {
    if |ws| == 1 then Failure(NoNumber(""))
    else
      match Gather(ws[1..], ws[0])
      case Failure(e) => Failure(e)
      case Success((name, v, rest)) =>
        match ParseFloat(v)
        case None => Failure(NoNumber(v))
        case Some(p) => Success((Entry(name[..|name| - 1], p), rest))
  }

  /** All the records of the file, or the first error. */
  function ReadEntries(ws: seq<string>): Result<seq<Entry>, SaveError>
    requires AllWords(ws)
    decreases |ws|
  {
    if |ws| == 0 then Success([])
    else
      match ReadEntry(ws)
      case Failure(e) => Failure(e)
      case Success((e, rest)) =>
        assert AllWords(rest) by { SuffixWords(ws, rest); }
        match ReadEntries(rest)
        case Failure(f) => Failure(f)
        case Success(es) => Success([e] + es)
  }

  /** What ReadEntry and Gather leave over is a suffix of their input. */
  lemma SuffixWords(ws: seq<string>, rest: seq<string>)
    requires AllWords(ws) && |ws| > 0 && ReadEntry(ws).Success? && rest == ReadEntry(ws).value.1
    ensures AllWords(rest)
  {
    GatherSuffix(ws[1..], ws[0]);
  }

  lemma {:induction false} GatherSuffix(ws: seq<string>, name: string)
    requires |ws| > 0 && Gather(ws, name).Success?
    ensures ws[|ws| - |Gather(ws, name).value.2|..] == Gather(ws, name).value.2
    decreases |ws|
  {
    if !FloatText(ws[0]) {
      GatherSuffix(ws[1..], name + " " + ws[0]);
      var rest := Gather(ws, name).value.2;
      assert ws[1..][|ws| - 1 - |rest|..] == ws[|ws| - |rest|..];
    }
  }

  // ---------------------------------------------------------------------
  // Merging (timeTracking.cpp:253-255)
  // ---------------------------------------------------------------------

  /** `uptimeBuffer[n]`, which inserts 0 for a missing name. */
  function Lookup(u: Ledger, n: string): real {
    if n in u then u[n] else 0.0
  }

  /** One record merged as written: `since = u[n]`, `uptime = p + since`,
      `u[n] += uptime`. */
  function MergeEntry(u: Ledger, e: Entry): (r: Ledger)
    ensures r.Keys == u.Keys + {e.name}
    ensures r[e.name] == 2.0 * Lookup(u, e.name) + e.uptime
    ensures forall n :: n in u && n != e.name ==> r[n] == u[n]
  {
    var uptimeSinceLastBoot := Lookup(u, e.name);
    var processUptime := e.uptime + uptimeSinceLastBoot;
    u[e.name := Lookup(u, e.name) + processUptime]
  }

  /** One record merged as the comment on `save` describes it: the saved
      amount added to this boot's amount. */
  function CorrectedMergeEntry(u: Ledger, e: Entry): (r: Ledger)
    ensures r.Keys == u.Keys + {e.name}
    ensures r[e.name] == Lookup(u, e.name) + e.uptime
    ensures forall n :: n in u && n != e.name ==> r[n] == u[n]
  {
    u[e.name := Lookup(u, e.name) + e.uptime]
  }

  /** The records merged in file order. */
  function MergeAll(u: Ledger, es: seq<Entry>): Ledger
    decreases |es|
  {
    if |es| == 0 then u else MergeAll(MergeEntry(u, es[0]), es[1..])
  }

  function CorrectedMergeAll(u: Ledger, es: seq<Entry>): Ledger
    decreases |es|
  {
    if |es| == 0 then u else CorrectedMergeAll(CorrectedMergeEntry(u, es[0]), es[1..])
  }

  /** The names of the records. */
  function EntryNames(es: seq<Entry>): set<string> {
    set i | 0 <= i < |es| :: es[i].name
  }

  predicate DistinctNames(es: seq<Entry>) {
    forall i, j :: 0 <= i < j < |es| ==> es[i].name != es[j].name
  }

  /** As written, a name saved once with `p` and credited `s` this boot ends
      with `s + (p + s)`; a name only in the file gets `p`, and a name only
      in the ledger keeps its amount. */
  lemma {:induction false} MergeAllValues(u: Ledger, es: seq<Entry>)
    requires DistinctNames(es)
    ensures MergeAll(u, es).Keys == u.Keys + EntryNames(es)
    ensures forall i :: 0 <= i < |es| ==> MergeAll(u, es)[es[i].name] == 2.0 * Lookup(u, es[i].name) + es[i].uptime
    ensures forall n :: n in u && n !in EntryNames(es) ==> MergeAll(u, es)[n] == u[n]
    decreases |es|
  {
    if |es| > 0 {
      var v := MergeEntry(u, es[0]);
      var tail := es[1..];
      assert DistinctNames(tail) by {
        forall i, j | 0 <= i < j < |tail|
          ensures tail[i].name != tail[j].name
        {
          assert tail[i] == es[i + 1] && tail[j] == es[j + 1];
        }
      }
      MergeAllValues(v, tail);
      assert EntryNames(es) == {es[0].name} + EntryNames(tail) by {
        forall n | n in EntryNames(es)
          ensures n in {es[0].name} + EntryNames(tail)
        {
          var i :| 0 <= i < |es| && es[i].name == n;
          if i > 0 {
            assert tail[i - 1] == es[i];
          }
        }
        forall n | n in EntryNames(tail)
          ensures n in EntryNames(es)
        {
          var i :| 0 <= i < |tail| && tail[i].name == n;
          assert es[i + 1] == tail[i];
        }
      }
      assert es[0].name !in EntryNames(tail) by {
        forall i | 0 <= i < |tail|
          ensures tail[i].name != es[0].name
        {
          assert tail[i] == es[i + 1];
        }
      }
      forall i | 0 <= i < |es|
        ensures MergeAll(u, es)[es[i].name] == 2.0 * Lookup(u, es[i].name) + es[i].uptime
      {
        if i > 0 {
          assert tail[i - 1] == es[i];
          assert es[i].name in EntryNames(tail);
        }
      }
    }
  }

  /** Corrected, the saved amount and this boot's amount are added once each. */
  lemma {:induction false} CorrectedMergeAllValues(u: Ledger, es: seq<Entry>)
    requires DistinctNames(es)
    ensures CorrectedMergeAll(u, es).Keys == u.Keys + EntryNames(es)
    ensures forall i :: 0 <= i < |es| ==> CorrectedMergeAll(u, es)[es[i].name] == Lookup(u, es[i].name) + es[i].uptime
    ensures forall n :: n in u && n !in EntryNames(es) ==> CorrectedMergeAll(u, es)[n] == u[n]
    decreases |es|
  {
    if |es| > 0 {
      var v := CorrectedMergeEntry(u, es[0]);
      var tail := es[1..];
      assert DistinctNames(tail) by {
        forall i, j | 0 <= i < j < |tail|
          ensures tail[i].name != tail[j].name
        {
          assert tail[i] == es[i + 1] && tail[j] == es[j + 1];
        }
      }
      CorrectedMergeAllValues(v, tail);
      assert EntryNames(es) == {es[0].name} + EntryNames(tail) by {
        forall n | n in EntryNames(es)
          ensures n in {es[0].name} + EntryNames(tail)
        {
          var i :| 0 <= i < |es| && es[i].name == n;
          if i > 0 {
            assert tail[i - 1] == es[i];
          }
        }
        forall n | n in EntryNames(tail)
          ensures n in EntryNames(es)
        {
          var i :| 0 <= i < |tail| && tail[i].name == n;
          assert es[i + 1] == tail[i];
        }
      }
      assert es[0].name !in EntryNames(tail) by {
        forall i | 0 <= i < |tail|
          ensures tail[i].name != es[0].name
        {
          assert tail[i] == es[i + 1];
        }
      }
      forall i | 0 <= i < |es|
        ensures CorrectedMergeAll(u, es)[es[i].name] == Lookup(u, es[i].name) + es[i].uptime
      {
        if i > 0 {
          assert tail[i - 1] == es[i];
          assert es[i].name in EntryNames(tail);
        }
      }
    }
  }

  // ---------------------------------------------------------------------
  // The whole of `save`
  // ---------------------------------------------------------------------

  /** The records of the file merged into `u` in turn, or the first error. */
  function Merged(u: Ledger, ws: seq<string>): Result<Ledger, SaveError>
    requires AllWords(ws)
  {
    match ReadEntries(ws)
    case Failure(e) => Failure(e)
    case Success(es) => Success(MergeAll(u, es))
  }

  /** The ledger `save` writes, or why it stops: running processes credited
      in pid order, then the records of the file merged in. */
  ghost function SaveLedger(t: Table, l: Ledger, file: string, now: real, clk: nat): Result<Ledger, SaveError>
    requires clk > 0
  {
    Merged(CreditLive(t, l, SortedPids(t.Keys), now, clk), Words(file))
  }

  /** The lines `save` writes: one per name of the ledger, in name order. */
  ghost function Listing(u: Ledger): (r: seq<Entry>)
    ensures |r| == |SortedNames(u.Keys)|
    ensures forall i :: 0 <= i < |r| ==> r[i].name == SortedNames(u.Keys)[i] && r[i].name in u && r[i].uptime == u[r[i].name]
  {
    var ns := SortedNames(u.Keys);
    seq(|ns|, i requires 0 <= i < |ns| => Entry(ns[i], u[ns[i]]))
  }

  /** `save`: credit the running processes, read and merge the file, list
      the ledger.  `file` is the text of the uptime file (a missing file reads
      as empty); the result is the lines written, as (name, value) pairs. */
  method Save(processBuffer: Table, uptimeBuffer: Ledger, file: string, now: real, clk: nat)
    returns (r: Result<seq<Entry>, SaveError>)
    requires clk > 0
    ensures SaveLedger(processBuffer, uptimeBuffer, file, now, clk).Failure? ==>
              r == Failure(SaveLedger(processBuffer, uptimeBuffer, file, now, clk).error)
    ensures SaveLedger(processBuffer, uptimeBuffer, file, now, clk).Success? ==>
              r == Success(Listing(SaveLedger(processBuffer, uptimeBuffer, file, now, clk).value))
  {
    var u := CreditProcesses(processBuffer, uptimeBuffer, now, clk);
    var merged := MergeFile(u, Words(file));
    match merged
    case Failure(e) =>
      r := Failure(e);
    case Success(v) =>
      var lines := ListLedger(v);
      r := Success(lines);
  }

  /** The outer `while (uptimeDataFileR >> processName)`. */
  method MergeFile(u0: Ledger, ws: seq<string>) returns (r: Result<Ledger, SaveError>)
    requires AllWords(ws)
    ensures r == Merged(u0, ws)
  {
    var u := u0;
    var k := 0;
    while k < |ws|
      invariant k <= |ws|
      invariant Merged(u0, ws) == Merged(u, ws[k..])
      decreases |ws| - k
    {
      var e, next := ReadRecord(ws, k);
      match e
      case Failure(err) =>
        MergedStep(u, ws[k..]);
        return Failure(err);
      case Success(entry) =>
        MergedNext(u0, u, ws, k, next, entry);
        u := MergeEntry(u, entry);
        k := next;
    }
    assert ws[k..] == [];
    r := Success(u);
  }

  /** Merging stops at the first record that fails, or merges it and goes on. */
  lemma MergedStep(u: Ledger, ws: seq<string>)
    requires AllWords(ws) && |ws| > 0
    ensures ReadEntry(ws).Failure? ==> Merged(u, ws) == Failure(ReadEntry(ws).error)
    ensures ReadEntry(ws).Success? ==>
              (AllWords(ReadEntry(ws).value.1) &&
               Merged(u, ws) == Merged(MergeEntry(u, ReadEntry(ws).value.0), ReadEntry(ws).value.1))
  {
    if ReadEntry(ws).Success? {
      SuffixWords(ws, ReadEntry(ws).value.1);
      match ReadEntries(ReadEntry(ws).value.1)
      case Failure(_) =>
      case Success(es) =>
        assert ([ReadEntry(ws).value.0] + es)[1..] == es;
    }
  }

  /** The loop step of MergeFile: the record read from word `k` on is merged. */
  lemma MergedNext(u0: Ledger, u: Ledger, ws: seq<string>, k: nat, next: nat, entry: Entry)
    requires AllWords(ws) && k < next <= |ws|
    requires Merged(u0, ws) == Merged(u, ws[k..])
    requires ReadEntry(ws[k..]).Success? && ReadEntry(ws[k..]).value == (entry, ws[next..])
    ensures Merged(u0, ws) == Merged(MergeEntry(u, entry), ws[next..])
  {
    MergedStep(u, ws[k..]);
  }

  /** One record read from word `k` on: the first word, the gathering loop,
      std::stof and `pop_back`. */
  method ReadRecord(ws: seq<string>, k: nat) returns (e: Result<Entry, SaveError>, next: nat)
    requires k < |ws| && AllWords(ws)
    ensures ReadEntry(ws[k..]).Failure? ==> e == Failure(ReadEntry(ws[k..]).error)
    ensures ReadEntry(ws[k..]).Success? ==>
              (e == Success(ReadEntry(ws[k..]).value.0) && k < next <= |ws| && ws[next..] == ReadEntry(ws[k..]).value.1)
  {
    assert ws[k..][1..] == ws[k + 1..];
    var processName := ws[k];
    next := k + 1;
    if k + 1 == |ws| {
      e := Failure(NoNumber(""));
      return;
    }
    var j := k + 1;
    var buf := ws[j];
    var isFloat := IsFloat(buf);
    while !isFloat
      invariant k < j < |ws| && buf == ws[j] && isFloat == FloatText(buf) && |processName| > 0
      invariant Gather(ws[k + 1..], ws[k]) == Gather(ws[j..], processName)
      decreases |ws| - j
    {
      if j + 1 == |ws| {
        e := Failure(Unterminated(processName + " " + buf));
        return;
      }
      assert ws[j..][1..] == ws[j + 1..];
      processName := processName + " " + buf;
      j := j + 1;
      buf := ws[j];
      isFloat := IsFloat(buf);
    }
    var previousUptime := ParseFloat(buf);
    next := j + 1;
    if previousUptime.None? {
      e := Failure(NoNumber(buf));
      return;
    }
    processName := processName[..|processName| - 1];
    e := Success(Entry(processName, previousUptime.value));
  }

  /** The final range-for over the ledger, in name order. */
  method ListLedger(u: Ledger) returns (lines: seq<Entry>)
    ensures lines == Listing(u)
  {
    var names := NameList(u.Keys);
    lines := [];
    var k := 0;
    while k < |names|
      invariant k <= |names|
      invariant lines == Listing(u)[..k]
    {
      lines := lines + [Entry(names[k], u[names[k]])];
      k := k + 1;
    }
  }

  // ---------------------------------------------------------------------
  // Reading back what `save` writes (timeTracking.cpp:244-252, 259-261)
  // ---------------------------------------------------------------------

  /** The line `save` writes for a name and the text of its value. */
  function LineText(name: string, v: string): string {
    name + ": " + v + "\n"
  }

  /** A line as written: the words of the name and the text of the value. */
  datatype Line = Line(words: seq<string>, value: string)

  /** A line the reader gives back unchanged: a name of words joined by
      single spaces, none of them after the first one that `isFloat` accepts
      (the last word is safe, as its `:` makes `isFloat` fail), and a value
      `isFloat` accepts that holds a digit. */
  predicate RoundTrips(ln: Line) {
    |ln.words| > 0 && AllWords(ln.words) &&
    (forall i :: 0 < i < |ln.words| - 1 ==> !FloatText(ln.words[i])) &&
    IsWord(ln.value) && FloatText(ln.value) && ContainsNumber(ln.value)
  }

  /** The text of a file of lines. */
  function FileText(lines: seq<Line>): string
    decreases |lines|
  {
    if |lines| == 0 then "" else LineText(Join(lines[0].words), lines[0].value) + FileText(lines[1..])
  }

  /** The records the lines stand for. */
  function Decoded(lines: seq<Line>): seq<Entry>
    requires forall i :: 0 <= i < |lines| ==> RoundTrips(lines[i])
    decreases |lines|
  {
    if |lines| == 0 then []
    else
      assert RoundTrips(lines[0]);
      FloatTextParses(lines[0].value);
      [Entry(Join(lines[0].words), ParseFloat(lines[0].value).value)] + Decoded(lines[1..])
  }

  /** Reading a file of such lines gives back exactly their names and values. */
  lemma {:induction false} FileRoundTrip(lines: seq<Line>)
    requires forall i :: 0 <= i < |lines| ==> RoundTrips(lines[i])
    ensures ReadEntries(Words(FileText(lines))) == Success(Decoded(lines))
    decreases |lines|
  {
    if |lines| > 0 {
      var ln := lines[0];
      var more := FileText(lines[1..]);
      FileRoundTrip(lines[1..]);
      LineWords(ln.words, ln.value, more);
      var ws := Colon(ln.words) + [ln.value] + Words(more);
      ReadLine(ln.words, ln.value, Words(more));
      assert ReadEntry(ws).value.1 == Words(more);
    }
  }

  /** The name's words with the `:` after the last one. */
  function Colon(ws: seq<string>): (r: seq<string>)
    requires |ws| > 0
    ensures |r| == |ws| && r[..|ws| - 1] == ws[..|ws| - 1] && r[|ws| - 1] == ws[|ws| - 1] + ":"
  {
    ws[..|ws| - 1] + [ws[|ws| - 1] + ":"]
  }

  /** The words of a line followed by more text. */
  lemma LineWords(ws: seq<string>, v: string, more: string)
    requires |ws| > 0 && AllWords(ws) && IsWord(v)
    ensures Words(LineText(Join(ws), v) + more) == Colon(ws) + [v] + Words(more)
  {
    var c := Colon(ws);
    assert AllWords(c) by {
      forall i | 0 <= i < |c|
        ensures IsWord(c[i])
      {
        if i < |ws| - 1 {
          assert c[i] == c[..|ws| - 1][i] == ws[i];
        } else {
          assert c[i] == ws[i] + ":";
        }
      }
    }
    ColonJoin(ws);
    var tail := v + ("\n" + more);
    assert LineText(Join(ws), v) + more == Join(c) + (" " + tail);
    WordsOfJoin(c, " " + tail);
    assert (" " + tail)[1..] == tail;
    WordsOfWord(v, "\n" + more);
    assert ("\n" + more)[1..] == more;
    assert Words(" " + tail) == [v] + Words(more);
  }

  /** The joined name with a `:` appended is the join of Colon. */
  lemma {:induction false} ColonJoin(ws: seq<string>)
    requires |ws| > 0
    ensures Join(ws) + ":" == Join(Colon(ws))
    decreases |ws|
  {
    if |ws| > 1 {
      var c := Colon(ws);
      ColonJoin(ws[1..]);
      assert c[0] == ws[0];
      assert c[1..] == Colon(ws[1..]);
    }
  }

  /** A word followed by whitespace or nothing is one `>>`. */
  lemma WordsOfWord(w: string, r: string)
    requires IsWord(w) && (|r| == 0 || IsSpace(r[0]))
    ensures Words(w + r) == [w] + Words(r)
  {
    WordLenOf(w, r);
    assert (w + r)[..|w|] == w && (w + r)[|w|..] == r;
  }

  lemma {:induction false} WordLenOf(w: string, r: string)
    requires NoSpace(w) && (|r| == 0 || IsSpace(r[0]))
    ensures WordLen(w + r) == |w|
    decreases |w|
  {
    if |w| > 0 {
      WordLenOf(w[1..], r);
      assert (w + r)[1..] == w[1..] + r;
    } else {
      assert w + r == r;
    }
  }

  /** Words joined by single spaces come back as the same words. */
  lemma {:induction false} WordsOfJoin(ws: seq<string>, r: string)
    requires |ws| > 0 && AllWords(ws) && (|r| == 0 || IsSpace(r[0]))
    ensures Words(Join(ws) + r) == ws + Words(r)
    decreases |ws|
  {
    if |ws| == 1 {
      WordsOfWord(ws[0], r);
    } else {
      WordsAfterFirst(ws, r);
      WordsOfJoin(ws[1..], r);
      ConsSplit(ws, Words(r));
    }
  }

  /** The first word of a join of several, then the join of the others. */
  lemma WordsAfterFirst(ws: seq<string>, r: string)
    requires |ws| > 1 && IsWord(ws[0])
    ensures Words(Join(ws) + r) == [ws[0]] + Words(Join(ws[1..]) + r)
  {
    var tail := Join(ws[1..]) + r;
    assert Join(ws) + r == ws[0] + (" " + tail);
    WordsOfWord(ws[0], " " + tail);
    WordsOfSpace(tail);
  }

  lemma ConsSplit(ws: seq<string>, rest: seq<string>)
    requires |ws| > 0
    ensures [ws[0]] + (ws[1..] + rest) == ws + rest
  {
    assert ws == [ws[0]] + ws[1..];
  }

  /** A space before the text changes no word. */
  lemma WordsOfSpace(t: string)
    ensures Words(" " + t) == Words(t)
  {
    assert (" " + t)[1..] == t;
  }

  /** Joining after a first word. */
  lemma JoinAfter(a: string, ws: seq<string>)
    ensures Join([a] + ws) == if |ws| == 0 then a else a + " " + Join(ws)
  {
    assert ([a] + ws)[1..] == ws;
  }

  /** Gathering runs over the words `isFloat` refuses and stops at `v`. */
  lemma {:induction false} GatherJoin(ws: seq<string>, name: string, v: string, rest: seq<string>)
    requires (forall i :: 0 <= i < |ws| ==> !FloatText(ws[i])) && FloatText(v)
    ensures Gather(ws + [v] + rest, name) == Success((Join([name] + ws), v, rest))
    decreases |ws|
  {
    var all := ws + [v] + rest;
    if |ws| == 0 {
      assert all == [v] + rest;
      assert all[1..] == rest;
      JoinAfter(name, ws);
    } else {
      assert all[0] == ws[0] && all[1..] == ws[1..] + [v] + rest;
      GatherJoin(ws[1..], name + " " + ws[0], v, rest);
      JoinAfter(name + " " + ws[0], ws[1..]);
      JoinAfter(name, ws);
      if |ws| > 1 {
        assert Join(ws) == ws[0] + " " + Join(ws[1..]);
        assert name + " " + ws[0] + " " + Join(ws[1..]) == name + " " + (ws[0] + " " + Join(ws[1..]));
      } else {
        assert Join(ws) == ws[0];
        assert name + " " + ws[0] == name + " " + Join(ws);
      }
    }
  }

  /** One line read back: the name and the value, and then the words after it. */
  lemma ReadLine(ws: seq<string>, v: string, rest: seq<string>)
    requires RoundTrips(Line(ws, v))
    ensures ParseFloat(v).Some?
    ensures var all := Colon(ws) + [v] + rest;
      IsWord(all[0]) && ReadEntry(all) == Success((Entry(Join(ws), ParseFloat(v).value), rest))
  {
    FloatTextParses(v);
    var c := Colon(ws);
    var all := c + [v] + rest;
    assert IsWord(all[0]) by {
      if |ws| > 1 {
        assert all[0] == c[..|ws| - 1][0] == ws[0];
      } else {
        assert all[0] == ws[0] + ":";
      }
    }
    var between := c[1..];
    forall i | 0 <= i < |between|
      ensures !FloatText(between[i])
    {
      if i + 1 < |ws| - 1 {
        assert between[i] == c[..|ws| - 1][i + 1] == ws[i + 1];
      } else {
        assert between[i] == ws[|ws| - 1] + ":";
        assert between[i][|between[i]| - 1] == ':';
      }
    }
    assert all[1..] == between + [v] + rest;
    GatherJoin(between, c[0], v, rest);
    assert [c[0]] + between == c;
    ColonJoin(ws);
    var name := Join(c);
    assert name[..|name| - 1] == Join(ws);
  }

  /** With no process running, saving a ledger that holds `u` for a name
      over a file holding that name with `p` writes `u + (p + u)`. */
  lemma SaveOneName(w: string, v: string, u: real, now: real, clk: nat)
    requires clk > 0 && RoundTrips(Line([w], v))
    ensures ParseFloat(v).Some?
    ensures var r := SaveLedger(map[], map[w := u], LineText(w, v), now, clk);
      r.Success? && r.value.Keys == {w} && r.value[w] == 2.0 * u + ParseFloat(v).value
  {
    var none: Table := map[];
    assert SortedPids(none.Keys) == [];
    ReadOneLine(w, v);
    var es := [Entry(w, ParseFloat(v).value)];
    assert MergeAll(map[w := u], es) == MergeAll(MergeEntry(map[w := u], es[0]), []) by {
      assert es[1..] == [];
    }
  }

  /** A file of one such line holds one record. */
  lemma ReadOneLine(w: string, v: string)
    requires RoundTrips(Line([w], v))
    ensures ParseFloat(v).Some?
    ensures ReadEntries(Words(LineText(w, v))) == Success([Entry(w, ParseFloat(v).value)])
  {
    var lines := [Line([w], v)];
    FileRoundTrip(lines);
    assert FileText(lines) == LineText(w, v) by {
      assert lines[1..] == [];
      assert Join([w]) == w;
    }
    FloatTextParses(v);
    assert Decoded(lines) == [Entry(w, ParseFloat(v).value)] by {
      assert lines[1..] == [];
      assert Join([w]) == w;
    }
  }

  /** `{A: 5}` saved over `A: 10` gives `A: 20`. */
  lemma MergeAsWrittenExample()
    ensures MergeAll(map["A" := 5.0], [Entry("A", 10.0)]) == map["A" := 20.0]
  {
    var es := [Entry("A", 10.0)];
    assert es[1..] == [];
    assert MergeAll(map["A" := 5.0], es) == MergeAll(map["A" := 20.0], []);
  }

  /** Corrected, the same save writes `A: 15`. */
  lemma CorrectedSaveExample()
    ensures CorrectedMergeAll(map["A" := 5.0], [Entry("A", 10.0)]) == map["A" := 15.0]
  {
    var es := [Entry("A", 10.0)];
    assert es[1..] == [];
    assert CorrectedMergeAll(map["A" := 5.0], es) == CorrectedMergeAll(map["A" := 15.0], []);
  }
}
