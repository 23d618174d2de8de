/** socket.cpp: what the daemon writes back to one client.  The client's
    request is the zero-filled 80-byte buffer it read, the shared maps are
    values, and each write(2) on the connection is one element of the reply
    (the one-byte acknowledgements the daemon waits for carry nothing). */
module Wire {
  import opened Wrappers
  import opened Text
  import opened Decimal
  import opened Order
  import opened Tracking

  /** The two field separators of a record, '\1' and '\2'. */
  const SOH: char := 1 as char
  const STX: char := 2 as char

  /** The characters std::to_string writes for a number. */
  predicate Numeric(s: string) {
    forall i :: 0 <= i < |s| ==> IsDigit(s[i]) || s[i] == '-' || s[i] == '.'
  }

  lemma IntTextNumeric(i: int)
    ensures Numeric(IntToDecimal(i))
  {
  }

  lemma FixedTextNumeric(v: real)
    ensures Numeric(FixedText(v))
  {
    var q := Scaled(Magnitude(v));
    assert MicrosDigits(q) == NatToDecimal(q / MICRO) + "." + PadDigits(q % MICRO, 6);
  }

  /** The uptime record: name, '\1', the "%f" text of the seconds, newline.
      Its only '\1' follows the name and its only newline ends it, when the
      name holds neither. */
  function UptimeRecord(name: string, uptime: real): (r: string)
    ensures |r| == |name| + |FixedText(uptime)| + 2 && r[..|name|] == name
    ensures SOH !in name ==> forall i :: 0 <= i < |r| ==> (r[i] == SOH <==> i == |name|)
    ensures '\n' !in name ==> forall i :: 0 <= i < |r| ==> (r[i] == '\n' <==> i == |r| - 1)
  {
    FixedTextNumeric(uptime);
    name + [SOH] + FixedText(uptime) + "\n"
  }

  /** The process record: pid, '\1', name, '\2', start tick, newline.  Its
      only '\1' follows the pid, its only '\2' follows the name and its only
      newline ends it, when the name holds none of them. */
  function ProcessRecord(pid: int, p: Process): (r: string)
    ensures var k := |IntToDecimal(pid)|;
      && |r| == k + |p.name| + |IntToDecimal(p.startTick)| + 3
      && (SOH !in p.name ==> forall i :: 0 <= i < |r| ==> (r[i] == SOH <==> i == k))
      && (STX !in p.name ==> forall i :: 0 <= i < |r| ==> (r[i] == STX <==> i == k + 1 + |p.name|))
      && ('\n' !in p.name ==> forall i :: 0 <= i < |r| ==> (r[i] == '\n' <==> i == |r| - 1))
  {
    IntTextNumeric(pid);
    IntTextNumeric(p.startTick);
    IntToDecimal(pid) + [SOH] + p.name + [STX] + IntToDecimal(p.startTick) + "\n"
  }

  /** The records of the names `ns`, in that order. */
  function UptimeRecords(u: Ledger, ns: seq<string>): (r: seq<string>)
    requires forall n :: n in ns ==> n in u
  {
    seq(|ns|, i requires 0 <= i < |ns| => UptimeRecord(ns[i], u[ns[i]]))
  }

  /** The records of the pids `ps`, in that order. */
  function ProcessRecords(t: Table, ps: seq<int>): (r: seq<string>)
    requires forall p :: p in ps ==> p in t
  {
    seq(|ps|, i requires 0 <= i < |ps| => ProcessRecord(ps[i], t[ps[i]]))
  }

  lemma UptimeRecordsNext(u: Ledger, ns: seq<string>, k: nat)
    requires k < |ns| && forall n :: n in ns ==> n in u
    ensures UptimeRecords(u, ns[..k + 1]) == UptimeRecords(u, ns[..k]) + [UptimeRecord(ns[k], u[ns[k]])]
  {
    var a := UptimeRecords(u, ns[..k + 1]);
    var b := UptimeRecords(u, ns[..k]) + [UptimeRecord(ns[k], u[ns[k]])];
    forall i | 0 <= i < |a|
      ensures a[i] == b[i]
    {
      assert ns[..k + 1][i] == ns[i];
    }
  }

  lemma ProcessRecordsNext(t: Table, ps: seq<int>, k: nat)
    requires k < |ps| && forall p :: p in ps ==> p in t
    ensures ProcessRecords(t, ps[..k + 1]) == ProcessRecords(t, ps[..k]) + [ProcessRecord(ps[k], t[ps[k]])]
  {
    var a := ProcessRecords(t, ps[..k + 1]);
    var b := ProcessRecords(t, ps[..k]) + [ProcessRecord(ps[k], t[ps[k]])];
    forall i | 0 <= i < |a|
      ensures a[i] == b[i]
    {
      assert ps[..k + 1][i] == ps[i];
    }
  }

  /** The answer to "uptimeBuffer": the size of the copied ledger, then one
      record per name in the map's order. */
  ghost function UptimeReply(u: Ledger): seq<string> {
    [NatToDecimal(|u|)] + UptimeRecords(u, SortedNames(u.Keys))
  }

  /** The answer to "processBuffer": the size of the copied table, then one
      record per pid in the map's order. */
  ghost function ProcessReply(t: Table): seq<string> {
    [NatToDecimal(|t|)] + ProcessRecords(t, SortedPids(t.Keys))
  }

  /** What the daemon sends for the request `req`: the count and one record
      per entry of the map it names; nothing for any other request. */
  ghost function Reply(req: string, u: Ledger, t: Table): (r: seq<string>)
    ensures req == "uptimeBuffer" ==> |r| == |u| + 1 && r[0] == NatToDecimal(|u|)
    ensures req == "processBuffer" ==> |r| == |t| + 1 && r[0] == NatToDecimal(|t|)
    ensures req != "uptimeBuffer" && req != "processBuffer" ==> r == []
  {
    SortedNamesLength(u.Keys);
    SortedPidsLength(t.Keys);
    if req == "uptimeBuffer" then UptimeReply(u)
    else if req == "processBuffer" then ProcessReply(t)
    else []
  }

  /** The request handling of `socketServer`: `strcmp` on the buffer, then
      the answer for the map it names. */
  method Serve(buf: string, uptimeBuffer: Ledger, processBuffer: Table) returns (sent: seq<string>)
    ensures sent == Reply(CString(buf), uptimeBuffer, processBuffer)
  {
    var req := CString(buf);
    if req == "uptimeBuffer" {
      sent := SendUptimes(uptimeBuffer);
    } else if req == "processBuffer" {
      sent := SendProcesses(processBuffer);
    } else {
      sent := [];
    }
  }

  /** The copy of the ledger, its size, and the loop over the copy writing one
      record per name. */
  method SendUptimes(uptimeBuffer: Ledger) returns (sent: seq<string>)
    ensures sent == UptimeReply(uptimeBuffer)
  {
    var uptimeBufBuf := uptimeBuffer;
    var header := NatToDecimal(|uptimeBufBuf|);
    var names := NameList(uptimeBufBuf.Keys);
    var records := [];
    var k := 0;
    while k < |names|
      invariant 0 <= k <= |names|
      invariant records == UptimeRecords(uptimeBufBuf, names[..k])
    {
      UptimeRecordsNext(uptimeBufBuf, names, k);
      records := records + [UptimeRecord(names[k], uptimeBufBuf[names[k]])];
      k := k + 1;
    }
    assert names[..k] == names;
    sent := [header] + records;
  }

  /** The copy of the table, its size, and the loop over the copy writing one
      record per pid. */
  method SendProcesses(processBuffer: Table) returns (sent: seq<string>)
    ensures sent == ProcessReply(processBuffer)
  {
    var processBufBuf := processBuffer;
    var header := NatToDecimal(|processBufBuf|);
    var pids := PidList(processBufBuf.Keys);
    var records := [];
    var k := 0;
    while k < |pids|
      invariant 0 <= k <= |pids|
      invariant records == ProcessRecords(processBufBuf, pids[..k])
    {
      ProcessRecordsNext(processBufBuf, pids, k);
      records := records + [ProcessRecord(pids[k], processBufBuf[pids[k]])];
      k := k + 1;
    }
    assert pids[..k] == pids;
    sent := [header] + records;
  }

  /** Exactly the two request names get an answer. */
  lemma ReplyOnlyToKnown(req: string, u: Ledger, t: Table)
    ensures Reply(req, u, t) != [] <==> req == "uptimeBuffer" || req == "processBuffer"
  {
  }

  /** The first write is the number of records that follow it, as std::stoi
      reads it back. */
  lemma {:induction false} HeaderCounts(req: string, u: Ledger, t: Table)
    requires Reply(req, u, t) != []
    ensures ParseInt(Reply(req, u, t)[0]) == Some(|Reply(req, u, t)| - 1)
    ensures CString(Reply(req, u, t)[0]) == Reply(req, u, t)[0]
  {
    if req == "uptimeBuffer" {
      var ns := UptimeReplyOrdered(u);
    } else {
      var ps := ProcessReplyOrdered(t);
    }
  }

  /** A count as std::to_string writes it passes the zero-filled buffer whole
      and reads back with std::stoi. */
  lemma CountText(n: nat)
    ensures ParseInt(NatToDecimal(n)) == Some(n)
    ensures CString(NatToDecimal(n)) == NatToDecimal(n)
  {
    var h := NatToDecimal(n);
    ParseIntOfNatDecimal(n, "");
    assert h + "" == h;
    assert '\0' !in h by {
      assert forall i :: 0 <= i < |h| ==> IsDigit(h[i]);
    }
    assert Find(h, '\0').None?;
  }

  /** The uptime answer: its count, then every name of the ledger once, in
      ascending order, each with its own uptime. */
  lemma UptimeReplyOrdered(u: Ledger) returns (ns: seq<string>)
    ensures |ns| == |u| && forall n :: n in u <==> n in ns
    ensures forall i, j :: 0 <= i < j < |ns| ==> Less(ns[i], ns[j])
    ensures UptimeReply(u) == [NatToDecimal(|ns|)] + UptimeRecords(u, ns)
    ensures ParseInt(UptimeReply(u)[0]) == Some(|ns|) && CString(UptimeReply(u)[0]) == UptimeReply(u)[0]
  {
    ns := SortedNames(u.Keys);
    SortedNamesLength(u.Keys);
    SortedNamesAscending(u.Keys);
    assert |u.Keys| == |u|;
    CountText(|ns|);
  }

  /** The process answer: its count, then every pid of the table once, in
      ascending order, each with its own name and start tick. */
  lemma ProcessReplyOrdered(t: Table) returns (ps: seq<int>)
    ensures |ps| == |t| && forall p :: p in t <==> p in ps
    ensures forall i, j :: 0 <= i < j < |ps| ==> ps[i] < ps[j]
    ensures ProcessReply(t) == [NatToDecimal(|ps|)] + ProcessRecords(t, ps)
    ensures ParseInt(ProcessReply(t)[0]) == Some(|ps|) && CString(ProcessReply(t)[0]) == ProcessReply(t)[0]
  {
    ps := SortedPids(t.Keys);
    SortedPidsLength(t.Keys);
    SortedPidsAscending(t.Keys);
    assert |t.Keys| == |t|;
    CountText(|ps|);
  }

  /** The client's two requests: "uptimeBuffer" with its terminating zero
      and "processBuffer" without one, both read into a zero-filled buffer. */
  lemma ClientRequests()
    ensures CString("uptimeBuffer" + ['\0']) == "uptimeBuffer"
    ensures CString("processBuffer") == "processBuffer"
  {
    var a := "uptimeBuffer" + ['\0'];
    assert a[12] == '\0';
    var b := "processBuffer";
    assert forall i :: 0 <= i < |b| ==> b[i] != '\0';
  }
}
