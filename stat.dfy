/** The reader of a `/proc/<pid>/stat` record (timeTracking.cpp, inside
    `initProcessBuffer` and again inside `updateProcessBuffer`).  In the layout
    of the proc(5) manual page the record is `pid (comm) state ppid ...`, its
    22nd field `starttime` the start of the process in clock ticks since boot.
    The reader counts spaces outside parentheses up to the 21st, collects the
    text between each `(` and the `)` that matches it by depth as the name,
    and reads an integer after the 21st space. */
module Stat {
  import opened Wrappers
  import opened Text
  import opened Decimal

  /** The collected name and the text that follows the 21st space. */
  datatype Scan = Scan(name: string, rest: string)

  /** `n` in front of the name of a scan, when there is one. */
  function Prefixed(n: string, o: Option<Scan>): (r: Option<Scan>)
    ensures r.Some? <==> o.Some?
    ensures r.Some? ==> r.value.rest == o.value.rest && r.value.name == n + o.value.name
  {
    if o.Some? then Some(Scan(n + o.value.name, o.value.rest)) else None
  }

  /** The index of the `)` that closes the parenthesis of `t` which is `depth`
      levels out, `depth` counting the parenthesis before `t` itself.  None
      when the text ends first, where the source would read past the end of
      the file. */
  function CloseIndex(t: string, depth: nat): (r: Option<nat>)
    requires depth >= 1
    ensures r.Some? ==> r.value < |t| && t[r.value] == ')'
  {
    if |t| == 0 then None
    else if t[0] == ')' && depth == 1 then Some(0)
    else
      var o := CloseIndex(t[1..], Inner(t[0], depth));
      if o.Some? then Some(o.value + 1) else None
  }

  /** The depth after character `c`, short of closing the outermost group. */
  function Inner(c: char, depth: nat): (d: nat)
    requires depth >= 1 && !(c == ')' && depth == 1)
    ensures d >= 1
  {
    if c == ')' then depth - 1 else if c == '(' then depth + 1 else depth
  }

  /** The outer loop of the reader with `spaces` spaces still to count: a space
      counts, a `(` starts a group whose content joins the name, and anything
      else is skipped.  None when the text ends first. */
  function ScanFields(s: string, spaces: nat): (r: Option<Scan>)
    decreases |s|
  {
    if spaces == 0 then Some(Scan("", s))
    else if |s| == 0 then None
    else if s[0] == '(' then
      match CloseIndex(s[1..], 1)
      case None => None
      case Some(q) => Prefixed(s[1..q + 1], ScanFields(s[q + 2..], spaces))
    else if s[0] == ' ' then ScanFields(s[1..], spaces - 1)
    else ScanFields(s[1..], spaces)
  }

  /** The range of the `int` that the start tick is read into. */
  const INT_MIN: int := -0x8000_0000
  const INT_MAX: int := 0x7FFF_FFFF

  /** An extraction into an `int` of a value out of its range fails and
      stores the nearest bound (C++11 `num_get`). */
  function Saturated(v: int): (r: int)
    ensures INT_MIN <= r <= INT_MAX
    ensures INT_MIN <= v <= INT_MAX ==> r == v
    ensures v > INT_MAX ==> r == INT_MAX
    ensures v < INT_MIN ==> r == INT_MIN
  {
    if v > INT_MAX then INT_MAX else if v < INT_MIN then INT_MIN else v
  }

  /** `pidStat >> processStartTime`: an integer after optional whitespace,
      saturated to `int`; a failed extraction with no digits stores 0. */
  function StartTick(rest: string): int {
    Saturated(ParseInt(rest).GetOr(0))
  }

  /** A record the reader gets through: 21 spaces outside parentheses, and
      every `(` closed, before the end. */
  predicate WellFormed(stat: string) {
    ScanFields(stat, 21).Some?
  }

  /** The name and start tick read from a well-formed record. */
  function StatOf(stat: string): (string, int)
    requires WellFormed(stat)
  {
    var sc := ScanFields(stat, 21).value;
    (sc.name, StartTick(sc.rest))
  }

  /** The reader as the source runs it: `get(c)` is the next character at
      `pos`, `depth` the counter of the inner loop, and the closing `)` that
      the inner loop appends is popped off the name again. */
  method ParseStat(stat: string) returns (processName: string, processStartTime: int)
    requires WellFormed(stat)
    ensures (processName, processStartTime) == StatOf(stat)
  {
    var pos := 0;
    var wordCount := 1;
    processName := "";
    assert stat[pos..] == stat;
    PrefixedEmpty(ScanFields(stat, 21));
    while wordCount != 22
      invariant 1 <= wordCount <= 22 && pos <= |stat|
      invariant Scanning(stat, pos, 22 - wordCount, processName)
      decreases |stat| - pos
    {
      pos, wordCount, processName := ReadField(stat, pos, wordCount, processName);
    }
    processStartTime := StartTick(stat[pos..]);
    ScanDone(stat, pos, processName);
  }

  /** One pass of the outer loop: `get(c)`, the inner loop when `c` is `(`,
      and the count of a space outside parentheses. */
  method ReadField(stat: string, pos0: nat, wordCount0: int, name0: string)
    returns (pos: nat, wordCount: int, processName: string)
    requires WellFormed(stat) && 1 <= wordCount0 < 22 && pos0 <= |stat|
    requires Scanning(stat, pos0, 22 - wordCount0, name0)
    ensures pos0 < pos <= |stat| && wordCount0 <= wordCount <= 22
    ensures Scanning(stat, pos, 22 - wordCount, processName)
  {
    ghost var k := 22 - wordCount0;
    ghost var (pos1, k1, name1) := (pos0 + 1, k, name0);
    wordCount, processName := wordCount0, name0;
    var c := stat[pos0];
    pos := pos0 + 1;
    if c == '(' {
      ghost var q := GroupScanned(stat, pos0, k, name0);
      c, pos, processName := ReadGroup(stat, pos, q, processName);
      PopClose(name0, stat, pos0 + 1, q, processName);
      processName := processName[..|processName| - 1];
      pos1, name1 := pos0 + q + 2, name0 + stat[pos0 + 1..pos0 + 1 + q];
    } else {
      CharScanned(stat, pos0, k, name0);
      k1 := if c == ' ' then k - 1 else k;
    }
    if c == ' ' {
      wordCount := wordCount + 1;
    }
    Rescan(stat, pos1, k1, name1, pos, 22 - wordCount, processName);
  }

  /** With no space left to count, the name gathered so far is the record's
      name and the text from `pos` holds its start tick. */
  lemma ScanDone(stat: string, pos: nat, name: string)
    requires pos <= |stat| && WellFormed(stat) && Scanning(stat, pos, 0, name)
    ensures StatOf(stat) == (name, StartTick(stat[pos..]))
  {
    assert name + "" == name;
  }

  /** The outer loop between two characters: what is left to scan from `pos`,
      with `k` spaces to count, completes the scan of the whole record. */
  predicate Scanning(stat: string, pos: nat, k: nat, name: string)
    requires pos <= |stat|
  {
    ScanFields(stat, 21) == Prefixed(name, ScanFields(stat[pos..], k))
  }

  lemma Rescan(stat: string, pos: nat, k: nat, name: string, pos': nat, k': nat, name': string)
    requires pos <= |stat| && Scanning(stat, pos, k, name)
    requires pos' == pos && k' == k && name' == name
    ensures Scanning(stat, pos', k', name')
  {
  }

  lemma GroupScanned(stat: string, pos: nat, k: nat, name: string) returns (q: nat)
    requires WellFormed(stat) && k > 0 && pos < |stat| && stat[pos] == '(' && Scanning(stat, pos, k, name)
    ensures CloseIndex(stat[pos + 1..], 1) == Some(q) && pos + q + 2 <= |stat|
    ensures Scanning(stat, pos + q + 2, k, name + stat[pos + 1..pos + 1 + q])
  {
    q := GroupStep(stat, pos, k);
    PrefixedChain(ScanFields(stat, 21), name, ScanFields(stat[pos..], k),
                  stat[pos + 1..pos + 1 + q], ScanFields(stat[pos + q + 2..], k));
  }

  lemma PrefixedChain(x: Option<Scan>, a: string, y: Option<Scan>, b: string, z: Option<Scan>)
    requires x == Prefixed(a, y) && y == Prefixed(b, z)
    ensures x == Prefixed(a + b, z)
  {
    PrefixedTwice(a, b, z);
  }

  lemma CharScanned(stat: string, pos: nat, k: nat, name: string)
    requires k > 0 && pos < |stat| && stat[pos] != '(' && Scanning(stat, pos, k, name)
    ensures Scanning(stat, pos + 1, if stat[pos] == ' ' then k - 1 else k, name)
  {
    CharStep(stat, pos, k);
  }

  /** The inner loop of the reader, entered just after a `(`: it appends
      every character up to and including the `)` that closes it, `depth`
      counting the parentheses opened meanwhile. */
  method ReadGroup(stat: string, start: nat, ghost q: nat, name: string)
    returns (c: char, pos: nat, processName: string)
    requires start <= |stat| && CloseIndex(stat[start..], 1) == Some(q)
    ensures c == ')' && pos == start + q + 1 <= |stat|
    ensures processName == name + stat[start..pos]
  {
    c := '(';
    pos := start;
    processName := name;
    var depth := 0;
    ghost var open := 1;
    while c != ')' || depth != 0
      invariant InGroup(stat, start, q, name, c, pos, depth, open, processName)
      decreases start + q + 1 - pos
    {
      ghost var (c0, depth0, pos0, name0, open0) := (c, depth, pos, processName, open);
      ReadingNext(stat, start + q, pos, c, depth, open);
      if c == '(' {
        depth := depth + 1;
      }
      c := stat[pos];
      pos := pos + 1;
      processName := processName + [c];
      if c == ')' {
        depth := depth - 1;
      }
      open := GroupNext(stat, start, q, name, c0, pos0, depth0, open0, name0, c, pos, depth, processName);
    }
  }

  /** Where the inner loop stands: the name holds everything read since the
      `(`, and the group is still open unless the closing `)` was just read. */
  predicate InGroup(stat: string, start: nat, q: nat, name: string, c: char, pos: nat, depth: int, open: nat,
                    processName: string)
  {
    start <= pos <= start + q + 1 <= |stat| && processName == name + stat[start..pos] &&
    (c != ')' || depth != 0 ==> Reading(stat, start + q, pos, c, depth, open)) &&
    (c == ')' && depth == 0 ==> pos == start + q + 1)
  }

  /** One pass of the inner loop keeps InGroup. */
  lemma GroupNext(stat: string, start: nat, q: nat, name: string, c: char, pos: nat, depth: int, open: nat,
                  processName: string, c': char, pos': nat, d: int, processName': string) returns (open': nat)
    requires InGroup(stat, start, q, name, c, pos, depth, open, processName) && (c != ')' || depth != 0)
    requires pos < |stat| && c' == stat[pos] && pos' == pos + 1 && processName' == processName + [c']
    requires d == depth + (if c == '(' then 1 else 0) - (if c' == ')' then 1 else 0)
    ensures pos < pos' && InGroup(stat, start, q, name, c', pos', d, open', processName')
  {
    ReadingNext(stat, start + q, pos, c, depth, open);
    Appended(name, stat, start, pos);
    open' := ReadingStep(stat, start + q, pos, c, depth, open, d);
  }

  /** The inner loop between two characters: the group closes at `end`, and
      `open` parentheses are still open once `c` is counted. */
  predicate Reading(stat: string, end: nat, pos: nat, c: char, depth: int, open: nat) {
    open == depth + (if c == '(' then 1 else 0) >= 1 && pos <= end && pos <= |stat| &&
    CloseIndex(stat[pos..], open) == Some(end - pos)
  }

  /** One pass of the inner loop: the next character either closes the group
      at `end` or leaves the loop reading on. */
  lemma ReadingStep(stat: string, end: nat, pos: nat, c: char, depth: int, open: nat, d: int) returns (open': nat)
    requires Reading(stat, end, pos, c, depth, open) && pos < |stat|
    requires d == depth + (if c == '(' then 1 else 0) - (if stat[pos] == ')' then 1 else 0)
    ensures stat[pos] == ')' && d == 0 ==> pos + 1 == end + 1
    ensures stat[pos] != ')' || d != 0 ==> Reading(stat, end, pos + 1, stat[pos], d, open')
  {
    CloseStep(stat, pos, open, end - pos);
    if !(stat[pos] == ')' && open == 1) {
      open' := Inner(stat[pos], open);
    } else {
      open' := open;
    }
  }

  lemma ReadingNext(stat: string, end: nat, pos: nat, c: char, depth: int, open: nat)
    requires Reading(stat, end, pos, c, depth, open)
    ensures pos < |stat| && pos + 1 <= end + 1
  {
    CloseStep(stat, pos, open, end - pos);
  }

  lemma Appended(name: string, stat: string, start: nat, pos: nat)
    requires start <= pos < |stat|
    ensures name + stat[start..pos + 1] == name + stat[start..pos] + [stat[pos]]
  {
    assert stat[start..pos + 1] == stat[start..pos] + [stat[pos]];
  }

  /** One character of the inner loop, read off CloseIndex. */
  lemma CloseStep(stat: string, pos: nat, depth: nat, k: nat)
    requires depth >= 1 && pos <= |stat|
    requires CloseIndex(stat[pos..], depth) == Some(k)
    ensures pos < |stat|
    ensures stat[pos] == ')' && depth == 1 ==> k == 0
    ensures !(stat[pos] == ')' && depth == 1) ==>
      k >= 1 && CloseIndex(stat[pos + 1..], Inner(stat[pos], depth)) == Some(k - 1)
  {
    assert stat[pos..][1..] == stat[pos + 1..];
  }

  /** A `(` met by the outer loop: the group it opens is closed, and the scan
      goes on after it. */
  lemma GroupStep(stat: string, pos: nat, k: nat) returns (q: nat)
    requires k > 0 && pos < |stat| && stat[pos] == '(' && ScanFields(stat[pos..], k).Some?
    ensures CloseIndex(stat[pos + 1..], 1) == Some(q) && pos + q + 2 <= |stat|
    ensures ScanFields(stat[pos..], k) == Prefixed(stat[pos + 1..pos + 1 + q], ScanFields(stat[pos + q + 2..], k))
  {
    var s := stat[pos..];
    assert s[1..] == stat[pos + 1..];
    q := CloseIndex(s[1..], 1).value;
    assert s[1..q + 1] == stat[pos + 1..pos + 1 + q];
    assert s[q + 2..] == stat[pos + q + 2..];
  }

  /** Any other character: a space counts, the rest is skipped. */
  lemma CharStep(stat: string, pos: nat, k: nat)
    requires k > 0 && pos < |stat| && stat[pos] != '('
    ensures ScanFields(stat[pos..], k) == ScanFields(stat[pos + 1..], if stat[pos] == ' ' then k - 1 else k)
  {
    assert stat[pos..][1..] == stat[pos + 1..];
  }

  lemma PopClose(a: string, stat: string, from: nat, q: nat, n: string)
    requires from + q < |stat| && n == a + stat[from..from + q + 1]
    ensures |n| > 0 && n[..|n| - 1] == a + stat[from..from + q]
  {
    assert n == (a + stat[from..from + q]) + [stat[from + q]];
  }

  lemma PrefixedEmpty(o: Option<Scan>)
    ensures Prefixed("", o) == o
  {
    if o.Some? {
      assert "" + o.value.name == o.value.name;
    }
  }

  lemma PrefixedTwice(a: string, b: string, o: Option<Scan>)
    ensures Prefixed(a, Prefixed(b, o)) == Prefixed(a + b, o)
  {
    if o.Some? {
      assert a + (b + o.value.name) == (a + b) + o.value.name;
    }
  }

  /** `n` closes every parenthesis it opens, and never closes more than the
      `open` ones opened before it: the names the reader returns whole. */
  predicate Nested(n: string, open: nat)
    decreases |n|
  {
    if |n| == 0 then open == 0
    else if n[0] == '(' then Nested(n[1..], open + 1)
    else if n[0] == ')' then open > 0 && Nested(n[1..], open - 1)
    else Nested(n[1..], open)
  }

  /** After a nested name, the next `)` is the one that closes the group. */
  lemma {:induction false} CloseOfNested(n: string, open: nat, r: string)
    requires Nested(n, open)
    ensures CloseIndex(n + ")" + r, open + 1) == Some(|n|)
    decreases |n|
  {
    if |n| > 0 {
      var inner := if n[0] == ')' then open - 1 else if n[0] == '(' then open + 1 else open;
      CloseOfNested(n[1..], inner, r);
      assert (n + ")" + r)[1..] == n[1..] + ")" + r;
    }
  }

  /** The group `(n)` with a nested `n` adds exactly `n` to the name. */
  lemma GroupName(n: string, r: string, k: nat)
    requires Nested(n, 0) && k > 0
    ensures ScanFields("(" + n + ")" + r, k) == Prefixed(n, ScanFields(r, k))
  {
    var s := "(" + n + ")" + r;
    assert s[0] == '(' && CloseIndex(s[1..], 1) == Some(|n|) by {
      assert s[1..] == n + ")" + r;
      CloseOfNested(n, 0, r);
    }
    assert s[1..|n| + 1] == n && s[|n| + 2..] == r by {
      assert s == ("(" + n) + (")" + r);
    }
    GroupAt(s, k, |n|);
  }

  /** A `(` at the front whose group closes at `q`. */
  lemma GroupAt(s: string, k: nat, q: nat)
    requires k > 0 && |s| > 0 && s[0] == '(' && CloseIndex(s[1..], 1) == Some(q)
    ensures ScanFields(s, k) == Prefixed(s[1..q + 1], ScanFields(s[q + 2..], k))
  {
  }

  /** A field with no space and no parenthesis is skipped whole. */
  predicate Plain(w: string) {
    forall i :: 0 <= i < |w| ==> w[i] != ' ' && w[i] != '('
  }

  lemma {:induction false} SkipPlain(w: string, r: string, k: nat)
    requires Plain(w) && k > 0
    ensures ScanFields(w + r, k) == ScanFields(r, k)
    decreases |w|
  {
    if |w| > 0 {
      assert (w + r)[1..] == w[1..] + r;
      SkipPlain(w[1..], r, k);
    } else {
      assert w + r == r;
    }
  }

  /** Fields separated by single spaces, each followed by its space. */
  function Fields(ws: seq<string>): string {
    if |ws| == 0 then "" else ws[0] + " " + Fields(ws[1..])
  }

  /** Each plain field and its space count one field. */
  lemma {:induction false} SkipFields(ws: seq<string>, r: string, k: nat)
    requires forall i :: 0 <= i < |ws| ==> Plain(ws[i])
    requires |ws| <= k
    ensures ScanFields(Fields(ws) + r, k) == ScanFields(r, k - |ws|)
    decreases |ws|
  {
    if |ws| > 0 {
      var tail := " " + (Fields(ws[1..]) + r);
      assert Fields(ws) + r == ws[0] + tail;
      SkipPlain(ws[0], tail, k);
      assert tail[1..] == Fields(ws[1..]) + r;
      SkipFields(ws[1..], r, k - 1);
    } else {
      assert Fields(ws) + r == r;
    }
  }

  /** A record laid out as proc(5) describes it, `pid (comm) state ... ` with
      nineteen plain fields between the name and `starttime`: the reader
      returns the name whole, spaces and nested parentheses included, and the
      text that starts at field 22. */
  lemma StatLayout(pid: string, comm: string, ws: seq<string>, tail: string)
    requires Plain(pid) && Nested(comm, 0) && |ws| == 19
    requires forall i :: 0 <= i < |ws| ==> Plain(ws[i])
    ensures ScanFields(pid + " (" + comm + ") " + Fields(ws) + tail, 21) == Some(Scan(comm, tail))
  {
    var after := Fields(ws) + tail;
    var group := "(" + comm + ")" + (" " + after);
    assert pid + " (" + comm + ") " + Fields(ws) + tail == pid + (" " + group);
    SkipPlain(pid, " " + group, 21);
    assert (" " + group)[1..] == group;
    assert ScanFields(" " + group, 21) == ScanFields(group, 20);
    GroupName(comm, " " + after, 20);
    assert (" " + after)[1..] == after;
    assert ScanFields(" " + after, 20) == ScanFields(after, 19);
    SkipFields(ws, tail, 19);
    assert ScanFields(tail, 0) == Some(Scan("", tail));
    assert comm + "" == comm;
  }

  /** With the start tick written in decimal as field 22, the reader returns
      the name and that tick, saturated to `int`. */
  lemma StatRecord(pid: string, comm: string, ws: seq<string>, tick: int, more: string)
    requires Plain(pid) && Nested(comm, 0) && |ws| == 19
    requires forall i :: 0 <= i < |ws| ==> Plain(ws[i])
    requires |more| == 0 || !IsDigit(more[0])
    ensures WellFormed(pid + " (" + comm + ") " + Fields(ws) + IntToDecimal(tick) + more)
    ensures StatOf(pid + " (" + comm + ") " + Fields(ws) + IntToDecimal(tick) + more) == (comm, Saturated(tick))
  {
    var tail := IntToDecimal(tick) + more;
    assert pid + " (" + comm + ") " + Fields(ws) + IntToDecimal(tick) + more
      == pid + " (" + comm + ") " + Fields(ws) + tail;
    StatLayout(pid, comm, ws, tail);
    ParseIntOfDecimal(tick, more);
  }

  /** A start tick past `INT_MAX` (248.5 days of uptime at 100 ticks a
      second) is read as `INT_MAX`, whatever its size; one within range is
      read exactly. */
  lemma StartTickSaturates(tick: int, more: string)
    requires |more| == 0 || !IsDigit(more[0])
    ensures tick > INT_MAX ==> StartTick(IntToDecimal(tick) + more) == INT_MAX
    ensures INT_MIN <= tick <= INT_MAX ==> StartTick(IntToDecimal(tick) + more) == tick
  {
    ParseIntOfDecimal(tick, more);
  }

  /** The nested name `a(b)c` comes back whole. */
  lemma NestedExample()
    ensures ScanFields("(a(b)c) x", 1) == Some(Scan("a(b)c", "x"))
  {
    assert Nested("", 0);
    assert Nested("c", 0) by { assert "c"[1..] == ""; }
    assert Nested(")c", 1) by { assert ")c"[1..] == "c"; }
    assert Nested("b)c", 1) by { assert "b)c"[1..] == ")c"; }
    assert Nested("(b)c", 0) by { assert "(b)c"[1..] == "b)c"; }
    assert Nested("a(b)c", 0) by { assert "a(b)c"[1..] == "(b)c"; }
    GroupName("a(b)c", " x", 1);
    assert "(a(b)c) x" == "(" + "a(b)c" + ")" + " x";
    assert ScanFields(" x", 1) == Some(Scan("", "x"));
    assert "a(b)c" + "" == "a(b)c";
  }

  /** `()` gives the empty name. */
  lemma EmptyExample()
    ensures ScanFields("() x", 1) == Some(Scan("", "x"))
  {
    GroupName("", " x", 1);
    assert "() x" == "(" + "" + ")" + " x";
    assert ScanFields(" x", 1) == Some(Scan("", "x"));
    assert "" + "" == "";
  }
}
