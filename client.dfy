/** yotta_cli.cpp, the data: what the client collects in `askedProcesses`
    from the data file and from the daemon's two answers, and which entries
    it lists.  The file comes as its lines (what `getline` returns) and each
    answer as the header and the buffers the client's reads fill. */
module Client {
  import opened Wrappers
  import opened Text
  import opened Decimal
  import opened Order
  import opened Tracking
  import opened Wire
  import opened Cli
  import Persistence

  /** std::pair<int, float>: the pid last seen under a name (0 for none) and
      the seconds collected for it. */
  datatype Sighting = Sighting(pid: int, uptime: real)

  /** std::map<std::string, std::pair<int, float>> askedProcesses */
  type Asked = map<string, Sighting>

  /** The seconds already held under `name`, or none. */
  function Held(asked: Asked, name: string): real {
    if name in asked then asked[name].uptime else 0.0
  }

  /** The pid already held under `name`, or 0. */
  function HeldPid(asked: Asked, name: string): int {
    if name in asked then asked[name].pid else 0
  }

  lemma ModAtMost(x: nat, m: nat)
    requires m > 0
    ensures x % m <= x
  {
    if x >= m {
      assert x % m < m;
    }
  }

  /** `pos + 1` in size_t for a position found in `s`, or for npos: the next
      index, or 0 when nothing was found. */
  function After(s: string, r: Option<nat>): (k: nat)
    requires r.Some? ==> r.value < |s|
    ensures k <= |s|
    ensures r.None? ==> k == 0
    ensures r.Some? && r.value < NPOS ==> k == r.value + 1
  {
    ModAtMost(Pos(r) + 1, NPOS + 1);
    SizeAdd(Pos(r), 1)
  }

  // ---------------------------------------------------------------------
  // The data file (yotta_cli.cpp:23-40)
  // ---------------------------------------------------------------------

  /** The name of a line: everything before its last ':', the whole line when it has none. */
  function DataName(line: string): string {
    Substr(line, 0, Pos(FindLast(line, ':')))
  }

  /** The text of the value: everything after the last space, the whole line when it has none. */
  function DataValue(line: string): string {
    line[After(line, FindLast(line, ' '))..]
  }

  /** One line of the data file; std::stof throws when the value holds no
      number.  The name is the line before its last ':' (all of it when it
      has none) and the value is read from after its last space. */
  function ReadDataLine(line: string): (r: Result<(string, real), Exit>)
    ensures Fits(line) ==> DataName(line) == if ':' in line then line[..FindLast(line, ':').value] else line
    ensures Fits(line) ==> DataValue(line) == if ' ' in line then line[FindLast(line, ' ').value + 1..] else line
    ensures r.Success? <==> ParseFloat(DataValue(line)).Some?
    ensures ParseFloat(DataValue(line)).Some? ==> r == Success((DataName(line), ParseFloat(DataValue(line)).value))
  {
    DataFieldsSplit(line);
    match ParseFloat(DataValue(line))
    case None => Failure(StofFails(DataValue(line)))
    case Some(v) => Success((DataName(line), v))
  }

  lemma FindLastAt(s: string, c: char, k: nat)
    requires k < |s| && s[k] == c && c !in s[k + 1..]
    ensures FindLast(s, c) == Some(k)
  {
    assert c in s by { assert s[k] in s; }
    var r := FindLast(s, c).value;
    forall j | r < j < |s|
      ensures s[j] != c
    {
      assert s[j] == s[r + 1..][j - r - 1];
    }
    forall j | k < j < |s|
      ensures s[j] != c
    {
      assert s[j] == s[k + 1..][j - k - 1];
    }
  }

  /** A line `name: v` gives back exactly `name` and `v` when `v` holds no
      ':' and no space, whatever `name` holds. */
  lemma DataLineRoundTrip(name: string, v: string)
    requires ':' !in v && ' ' !in v && Fits(name + ": " + v)
    ensures DataName(name + ": " + v) == name
    ensures DataValue(name + ": " + v) == v
  {
    var line := name + ": " + v;
    assert line[|name|] == ':' && line[|name| + 1] == ' ';
    assert line[|name| + 1..] == " " + v;
    assert line[|name| + 2..] == v;
    var tail := line[|name| + 1..];
    forall i | 0 <= i < |tail|
      ensures tail[i] != ':'
    {
      if i > 0 {
        assert tail[i] == v[i - 1] && v[i - 1] in v;
      }
    }
    FindLastAt(line, ':', |name|);
    FindLastAt(line, ' ', |name| + 1);
  }

  /** The lines `save` writes read back as the names and values it wrote. */
  lemma ReadsSavedLine(name: string, v: string)
    requires ':' !in v && ' ' !in v && ParseFloat(v).Some? && Fits(name + ": " + v)
    ensures Persistence.LineText(name, v) == (name + ": " + v) + "\n"
    ensures ReadDataLine(name + ": " + v) == Success((name, ParseFloat(v).value))
  {
    DataLineRoundTrip(name, v);
  }

  /** One line's seconds into `askedProcesses`: an entry already there keeps
      its pid and gains the seconds; a new one starts with pid 0. */
  function AddData(asked: Asked, name: string, v: real): (r: Asked)
    ensures r.Keys == asked.Keys + {name}
    ensures r[name] == Sighting(HeldPid(asked, name), Held(asked, name) + v)
    ensures forall n :: n in asked && n != name ==> r[n] == asked[n]
  {
    if name in asked then asked[name := Sighting(asked[name].pid, asked[name].uptime + v)]
    else asked[name := Sighting(0, v)]
  }

  /** The lines of the file, one after the other. */
  function DataFile(asked: Asked, lines: seq<string>): Result<Asked, Exit>
    decreases |lines|
  {
    if |lines| == 0 then Success(asked)
    else
      match ReadDataLine(lines[0])
      case Failure(e) => Failure(e)
      case Success(line) => DataFile(AddData(asked, line.0, line.1), lines[1..])
  }

  /** `getDataFile`: no file ends the client; otherwise every line is read
      and added in turn. */
  method GetDataFile(askedProcesses: Asked, file: Option<seq<string>>) returns (r: Result<Asked, Exit>)
    ensures file.None? ==> r == Failure(NoDataFile)
    ensures file.Some? ==> r == DataFile(askedProcesses, file.value)
  {
    if file.None? {
      return Failure(NoDataFile);
    }
    var lines := file.value;
    var asked := askedProcesses;
    var k := 0;
    while k < |lines|
      invariant 0 <= k <= |lines|
      invariant DataFile(askedProcesses, lines) == DataFile(asked, lines[k..])
    {
      var line := lines[k];
      assert lines[k..][0] == line && lines[k..][1..] == lines[k + 1..];
      var processName := DataName(line);
      var processUptime := ParseFloat(DataValue(line));
      if processUptime.None? {
        return Failure(StofFails(DataValue(line)));
      }
      asked := AddData(asked, processName, processUptime.value);
      k := k + 1;
    }
    r := Success(asked);
  }

  /** The names of the lines that read. */
  function DataNames(lines: seq<string>): set<string>
    decreases |lines|
  {
    if |lines| == 0 then {}
    else
      match ReadDataLine(lines[0])
      case Failure(_) => DataNames(lines[1..])
      case Success(line) => {line.0} + DataNames(lines[1..])
  }

  /** The seconds the lines give `name`. */
  function DataTotal(lines: seq<string>, name: string): real
    decreases |lines|
  {
    if |lines| == 0 then 0.0
    else
      match ReadDataLine(lines[0])
      case Failure(_) => DataTotal(lines[1..], name)
      case Success(line) => (if line.0 == name then line.1 else 0.0) + DataTotal(lines[1..], name)
  }

  /** Reading the whole file: every name of the file is listed, each with the
      sum of the seconds of its lines added to what it held, and its pid is
      the one it held (0 for a new name). */
  lemma {:induction false} DataFileTotals(asked: Asked, lines: seq<string>, name: string)
    requires DataFile(asked, lines).Success?
    ensures var r := DataFile(asked, lines).value;
      && r.Keys == asked.Keys + DataNames(lines)
      && (name in r ==> r[name] == Sighting(HeldPid(asked, name), Held(asked, name) + DataTotal(lines, name)))
    decreases |lines|
  {
    if |lines| > 0 {
      var line := ReadDataLine(lines[0]).value;
      var next := AddData(asked, line.0, line.1);
      DataFileTotals(next, lines[1..], name);
      if name == line.0 {
        assert Held(next, name) == Held(asked, name) + line.1;
      } else if name in asked {
        assert next[name] == asked[name];
      }
    }
  }

  // ---------------------------------------------------------------------
  // The daemon's answers (yotta_cli.cpp:52-138)
  // ---------------------------------------------------------------------

  /** The uptime record as `getUptimeBuffer` splits it: the name before the
      first '\1', and the seconds from after it for `end - pos1` characters. */
  function UptimeFields(buf: string): (string, string) {
    var pos1 := Find(buf, SOH);
    var end := Find(buf, '\n');
    var length := SizeSub(Pos(end), Pos(pos1));
    (Substr(buf, 0, Pos(pos1)), Substr(buf, After(buf, pos1), length))
  }

  /** std::stof of the seconds field, kept with the name. */
  function ReadUptimeFields(f: (string, string)): (r: Result<(string, real), Exit>)
    ensures r.Success? <==> ParseFloat(f.1).Some?
    ensures ParseFloat(f.1).Some? ==> r == Success((f.0, ParseFloat(f.1).value))
  {
    match ParseFloat(f.1)
    case None => Failure(StofFails(f.1))
    case Some(v) => Success((f.0, v))
  }

  /** The uptime record read: the name and std::stof of the seconds.  The
      split itself never fails; only std::stof can throw. */
  function DecodeUptime(buf: string): (r: Result<(string, real), Exit>)
    ensures r.Failure? ==> r.error == StofFails(UptimeFields(buf).1)
    ensures r.Success? ==> r.value.0 == UptimeFields(buf).0 && ParseFloat(UptimeFields(buf).1) == Some(r.value.1)
  {
    ReadUptimeFields(UptimeFields(buf))
  }

  /** With the first '\1' at `i` before the first newline at `k`, the name is
      the text before the '\1' and the seconds are read from the text after
      it through the newline: the size_t arithmetic of the split does not wrap. */
  lemma DecodeUptimeAt(buf: string, i: nat, k: nat)
    requires Fits(buf) && i < k < |buf| && Find(buf, SOH) == Some(i) && Find(buf, '\n') == Some(k)
    ensures DecodeUptime(buf) == ReadUptimeFields((buf[..i], buf[i + 1..k + 1]))
  {
    PrefixTaken(buf, i);
    MiddleTaken(buf, i, k);
  }

  /** The process record as `getProcessBuffer` splits it: the pid before the
      first '\1', the name between it and the first '\2', and the number
      after that for `end - pos2` characters. */
  function ProcessFields(buf: string): (string, string, string) {
    var pos1 := Find(buf, SOH);
    var pos2 := Find(buf, STX);
    var end := Find(buf, '\n');
    var length1 := SizeSub(Pos(pos2), After(buf, pos1));
    var length2 := SizeSub(Pos(end), Pos(pos2));
    (Substr(buf, 0, Pos(pos1)), Substr(buf, After(buf, pos1), length1), Substr(buf, After(buf, pos2), length2))
  }

  /** std::stoi of the pid field and std::stof of the tick field, with the name between. */
  function ReadProcessFields(f: (string, string, string)): (r: Result<(int, string, real), Exit>)
    ensures r.Success? <==> ParseInt(f.0).Some? && ParseFloat(f.2).Some?
    ensures ParseInt(f.0).Some? && ParseFloat(f.2).Some? ==> r == Success((ParseInt(f.0).value, f.1, ParseFloat(f.2).value))
  {
    match ParseInt(f.0)
    case None => Failure(StoiFails(f.0))
    case Some(pid) =>
      match ParseFloat(f.2)
      case None => Failure(StofFails(f.2))
      case Some(v) => Success((pid, f.1, v))
  }

  /** The process record read: std::stoi of the pid, the name, and std::stof
      of the number.  With '\1', '\2' and the newline in that order, the
      three fields are the text before the '\1', between it and the '\2', and
      after the '\2' through the newline; the size_t arithmetic of the split
      does not wrap. */
  function DecodeProcess(buf: string): (r: Result<(int, string, real), Exit>)
    ensures r.Failure? ==> r.error == StoiFails(ProcessFields(buf).0) || r.error == StofFails(ProcessFields(buf).2)
    ensures r.Success? ==> ParseInt(ProcessFields(buf).0) == Some(r.value.0) && r.value.1 == ProcessFields(buf).1
                           && ParseFloat(ProcessFields(buf).2) == Some(r.value.2)
  {
    ReadProcessFields(ProcessFields(buf))
  }

  /** With the first '\1' at `i`, the first '\2' at `j` and the first newline
      at `k`, in that order, the three fields are the text before the '\1',
      between it and the '\2', and after the '\2' through the newline: the
      size_t arithmetic of the split does not wrap. */
  lemma DecodeProcessAt(buf: string, i: nat, j: nat, k: nat)
    requires Fits(buf) && i < j < k < |buf|
    requires Find(buf, SOH) == Some(i) && Find(buf, STX) == Some(j) && Find(buf, '\n') == Some(k)
    ensures DecodeProcess(buf) == ReadProcessFields((buf[..i], buf[i + 1..j], buf[j + 1..k + 1]))
  {
    ProcessFieldsOrdered(buf, i, j, k);
  }

  /** `substr(0, k)` is the first `k` characters, all of them for npos. */
  lemma PrefixTaken(s: string, k: nat)
    requires Fits(s) && (k <= |s| || k == NPOS)
    ensures Substr(s, 0, k) == (if k == NPOS then s else s[..k])
  {
  }

  /** `substr(q + 1, e - q)` for positions `q < e` of the record. */
  lemma MiddleTaken(s: string, q: nat, e: nat)
    requires q < e < |s| && Fits(s)
    ensures Substr(s, After(s, Some(q)), SizeSub(e, q)) == s[q + 1..e + 1]
  {
    NoWrap(e, q);
  }

  lemma DataFieldsSplit(line: string)
    ensures Fits(line) ==> DataName(line) == if ':' in line then line[..FindLast(line, ':').value] else line
    ensures Fits(line) ==> DataValue(line) == if ' ' in line then line[FindLast(line, ' ').value + 1..] else line
  {
    if Fits(line) {
      PrefixTaken(line, Pos(FindLast(line, ':')));
    }
  }

  /** `substr(q + 1, e - (q + 1))` for positions `q < e` of the record. */
  lemma NameTaken(s: string, q: nat, e: nat)
    requires q < e < |s| && Fits(s)
    ensures Substr(s, After(s, Some(q)), SizeSub(e, After(s, Some(q)))) == s[q + 1..e]
  {
    NoWrap(e, q + 1);
  }

  lemma ProcessFieldsOrdered(buf: string, i: nat, j: nat, k: nat)
    requires Fits(buf) && i < j < k < |buf|
    requires Find(buf, SOH) == Some(i) && Find(buf, STX) == Some(j) && Find(buf, '\n') == Some(k)
    ensures ProcessFields(buf) == (buf[..i], buf[i + 1..j], buf[j + 1..k + 1])
  {
    PrefixTaken(buf, i);
    NameTaken(buf, i, j);
    MiddleTaken(buf, j, k);
  }

  lemma FindAt(s: string, c: char, k: nat)
    requires k < |s| && s[k] == c && c !in s[..k]
    ensures Find(s, c) == Some(k)
  {
    assert c in s by { assert s[k] in s; }
    var r := Find(s, c).value;
    forall j | 0 <= j < r
      ensures s[j] != c
    {
      assert s[j] == s[..r][j];
    }
    forall j | 0 <= j < k
      ensures s[j] != c
    {
      assert s[j] == s[..k][j];
    }
  }

  /** A size_t difference that does not go below zero is the plain one. */
  lemma NoWrap(a: nat, b: nat)
    requires b <= a <= NPOS
    ensures SizeSub(a, b) == a - b
  {
  }

  /** The last field from after `q`, `end - q` characters long, is the rest
      of the record when the newline `e` is its last character or comes
      before `q` (the size_t difference then wraps around). */
  lemma TailTaken(s: string, q: nat, e: nat)
    requires q < |s| <= NPOS && (e < q || e == |s| - 1)
    ensures Substr(s, q + 1, SizeSub(e, q)) == s[q + 1..]
  {
    if e < q {
      assert SizeSub(e, q) == NPOS + 1 + e - q;
    } else {
      NoWrap(e, q);
    }
  }

  /** The last field of a record: from after position `q` up to the first
      newline is the text `t` and its newline, also when the newline comes
      earlier. */
  lemma LastField(s: string, q: nat, t: string)
    requires q < |s| && s[q] != '\n' && s[q + 1..] == t + "\n" && '\n' !in t && Fits(s)
    ensures Substr(s, q + 1, SizeSub(Pos(Find(s, '\n')), q)) == t + "\n"
  {
    assert s[|s| - 1] == '\n';
    assert '\n' in s by { assert s[|s| - 1] in s; }
    var e := Find(s, '\n').value;
    assert e < q || e == |s| - 1 by {
      assert s[e] == '\n';
      forall j | q < j < |s| - 1
        ensures s[j] != '\n'
      {
        assert s[j] == t[j - q - 1] && t[j - q - 1] in t;
      }
    }
    TailTaken(s, q, e);
  }


  predicate NoSeparators(name: string) {
    SOH !in name && STX !in name && '\0' !in name
  }

  /** Numbers as std::to_string writes them hold no separator, zero or newline. */
  lemma NumericClean(d: string)
    requires Numeric(d)
    ensures NoSeparators(d) && '\n' !in d
  {
    forall i | 0 <= i < |d|
      ensures d[i] != SOH && d[i] != STX && d[i] != '\0' && d[i] != '\n'
    {
    }
  }
  lemma UptimeFieldsAt(rec: string, q: nat, t: string)
    requires q < |rec| && Fits(rec) && Find(rec, SOH) == Some(q)
    requires Substr(rec, q + 1, SizeSub(Pos(Find(rec, '\n')), q)) == t
    ensures UptimeFields(rec) == (rec[..q], t)
  {
    assert After(rec, Some(q)) == q + 1;
  }

  lemma UptimeFieldsOf(name: string, f: string)
    requires Numeric(f) && SOH !in name && '\0' !in name && Fits(name + [SOH] + f + "\n")
    ensures CString(name + [SOH] + f + "\n") == name + [SOH] + f + "\n"
    ensures UptimeFields(name + [SOH] + f + "\n") == (name, f + "\n")
  {
    NumericClean(f);
    var rec := name + [SOH] + f + "\n";
    var q := |name|;
    assert '\0' !in rec;
    assert Find(rec, '\0').None?;
    assert rec[..q] == name && rec[q] == SOH;
    FindAt(rec, SOH, q);
    assert rec[q + 1..] == f + "\n";
    LastField(rec, q, f);
    UptimeFieldsAt(rec, q, f + "\n");
  }

  /** Decoding gives back the name of an uptime record and its seconds as
      "%f" wrote them, and the record passes the zero-filled buffer whole. */
  lemma DecodeUptimeRecord(name: string, v: real)
    requires SOH !in name && '\0' !in name && Fits(UptimeRecord(name, v))
    ensures CString(UptimeRecord(name, v)) == UptimeRecord(name, v)
    ensures DecodeUptime(UptimeRecord(name, v)) == Success((name, Rounded(v)))
  {
    FixedTextNumeric(v);
    UptimeFieldsOf(name, FixedText(v));
    ParseFloatOfFixed(v, "\n");
  }




  lemma ProcessFieldsAt(rec: string, q1: nat, q2: nat, t: string)
    requires q1 < q2 < |rec| && Fits(rec)
    requires Find(rec, SOH) == Some(q1) && Find(rec, STX) == Some(q2)
    requires Substr(rec, q2 + 1, SizeSub(Pos(Find(rec, '\n')), q2)) == t
    ensures ProcessFields(rec) == (rec[..q1], rec[q1 + 1..q2], t)
  {
    NameField(rec, q1, q2);
    TickField(rec, q2, t);
  }

  /** The name field of a process record lies between the two separators. */
  lemma NameField(rec: string, q1: nat, q2: nat)
    requires q1 < q2 < |rec| && Fits(rec)
    requires Find(rec, SOH) == Some(q1) && Find(rec, STX) == Some(q2)
    ensures ProcessFields(rec).0 == rec[..q1] && ProcessFields(rec).1 == rec[q1 + 1..q2]
  {
    assert After(rec, Some(q1)) == q1 + 1;
    NoWrap(q2, q1 + 1);
  }

  /** The tick field of a process record runs from after the second separator. */
  lemma TickField(rec: string, q2: nat, t: string)
    requires q2 < |rec| && Fits(rec) && Find(rec, STX) == Some(q2)
    requires Substr(rec, q2 + 1, SizeSub(Pos(Find(rec, '\n')), q2)) == t
    ensures ProcessFields(rec).2 == t
  {
    assert After(rec, Some(q2)) == q2 + 1;
  }

  lemma ProcessFieldsOf(d: string, n: string, k: string)
    requires Numeric(d) && Numeric(k) && NoSeparators(n)
    requires Fits(d + [SOH] + n + [STX] + k + "\n")
    ensures CString(d + [SOH] + n + [STX] + k + "\n") == d + [SOH] + n + [STX] + k + "\n"
    ensures ProcessFields(d + [SOH] + n + [STX] + k + "\n") == (d, n, k + "\n")
  {
    NumericClean(d);
    NumericClean(k);
    var a := d + [SOH] + n + [STX];
    var rec := a + k + "\n";
    assert '\0' !in rec;
    assert Find(rec, '\0').None?;
    var q1 := |d|;
    var q2 := |d| + 1 + |n|;
    assert rec[..q1] == d && rec[q1] == SOH;
    FindAt(rec, SOH, q1);
    assert rec[..q2] == d + [SOH] + n && rec[q2] == STX;
    FindAt(rec, STX, q2);
    assert rec[q1 + 1..q2] == n;
    assert rec[q2 + 1..] == k + "\n";
    LastField(rec, q2, k);
    ProcessFieldsAt(rec, q1, q2, k + "\n");
  }

  /** Decoding gives back the pid of a process record, its name, and its
      start tick (as the number the client adds to the seconds). */
  lemma DecodeProcessRecord(pid: int, p: Process)
    requires NoSeparators(p.name) && Fits(ProcessRecord(pid, p))
    ensures CString(ProcessRecord(pid, p)) == ProcessRecord(pid, p)
    ensures DecodeProcess(ProcessRecord(pid, p)) == Success((pid, p.name, p.startTick as real))
  {
    IntTextNumeric(pid);
    IntTextNumeric(p.startTick);
    ProcessFieldsOf(IntToDecimal(pid), p.name, IntToDecimal(p.startTick));
    assert IntToDecimal(pid) + "" == IntToDecimal(pid);
    ParseIntOfDecimal(pid, "");
    ParseFloatOfDecimal(p.startTick, "\n");
  }


  // ---------------------------------------------------------------------
  // Folding the answers into the asked processes
  // ---------------------------------------------------------------------

  /** What the `i`-th read of a record leaves in the string (`buf += buffer`
      on the zero-filled buffer); once the daemon has closed the connection
      the read leaves it empty. */
  function Received(chunks: seq<string>, i: nat): string {
    if i < |chunks| then CString(chunks[i]) else ""
  }

  /** One uptime record: the daemon's seconds replace what the name held,
      and a name not asked so far gets pid 0. */
  function SetUptime(asked: Asked, name: string, v: real): (r: Asked)
    ensures forall n :: n in r <==> n in asked || n == name
    ensures r[name] == Sighting(HeldPid(asked, name), v)
    ensures forall n :: n in asked && n != name ==> r[n] == asked[n]
  {
    asked[name := Sighting(HeldPid(asked, name), v)]
  }

  /** One process record: its pid replaces what the name held and its number
      is added to the seconds, or starts them for a name not asked so far. */
  function AddProcess(asked: Asked, pid: int, name: string, v: real): (r: Asked)
    ensures forall n :: n in r <==> n in asked || n == name
    ensures r[name] == Sighting(pid, Held(asked, name) + v)
    ensures forall n :: n in asked && n != name ==> r[n] == asked[n]
  {
    if name in asked then asked[name := Sighting(pid, asked[name].uptime + v)]
    else asked[name := Sighting(pid, v)]
  }

  /** The reads `i` up to `n` of the uptime loop, each split by `decode`
      (`DecodeUptime`; the lemmas about the loop hold for any record reader). */
  function ReadUptimes(asked: Asked, chunks: seq<string>, i: nat, n: int,
                       decode: string -> Result<(string, real), Exit>): Result<Asked, Exit>
    decreases n - i
  {
    if i >= n then Success(asked)
    else
      match decode(Received(chunks, i))
      case Failure(e) => Failure(e)
      case Success(rec) => ReadUptimes(SetUptime(asked, rec.0, rec.1), chunks, i + 1, n, decode)
  }

  /** The reads `i` up to `n` of the process loop, each split by `decode`
      (`DecodeProcess`). */
  function ReadProcesses(asked: Asked, chunks: seq<string>, i: nat, n: int,
                         decode: string -> Result<(int, string, real), Exit>): Result<Asked, Exit>
    decreases n - i
  {
    if i >= n then Success(asked)
    else
      match decode(Received(chunks, i))
      case Failure(e) => Failure(e)
      case Success(rec) => ReadProcesses(AddProcess(asked, rec.0, rec.1, rec.2), chunks, i + 1, n, decode)
  }

  /** The first read: std::stoi of the number of records.  A count written
      by std::to_string reads back as itself; an empty buffer fails. */
  function Count(header: string): (r: Result<int, Exit>)
    ensures forall n: nat :: CString(header) == NatToDecimal(n) ==> r == Success(n)
    ensures CString(header) == "" ==> r.Failure?
  {
    CountsRead();
    match ParseInt(CString(header))
    case None => Failure(StoiFails(CString(header)))
    case Some(n) => Success(n)
  }

  lemma CountsRead()
    ensures forall n: nat :: ParseInt(NatToDecimal(n)) == Some(n)
  {
    forall n: nat
      ensures ParseInt(NatToDecimal(n)) == Some(n)
    {
      CountText(n);
    }
  }

  /** `getUptimeBuffer` after the request: the count, then `n` records. */
  function UptimeAnswer(asked: Asked, header: string, chunks: seq<string>): Result<Asked, Exit> {
    match Count(header)
    case Failure(e) => Failure(e)
    case Success(n) => ReadUptimes(asked, chunks, 0, n, DecodeUptime)
  }

  /** `getProcessBuffer` after the request as written: the count, then
      `n - 1` records. */
  function AsWrittenProcessAnswer(asked: Asked, header: string, chunks: seq<string>): Result<Asked, Exit> {
    match Count(header)
    case Failure(e) => Failure(e)
    case Success(n) => ReadProcesses(asked, chunks, 0, n - 1, DecodeProcess)
  }

  /** `getProcessBuffer` reading every record the count announces. */
  function CorrectedProcessAnswer(asked: Asked, header: string, chunks: seq<string>): Result<Asked, Exit> {
    match Count(header)
    case Failure(e) => Failure(e)
    case Success(n) => ReadProcesses(asked, chunks, 0, n, DecodeProcess)
  }

  /** The uptime loop of `getUptimeBuffer`: header, then one record a read. */
  method GetUptimeBuffer(askedProcesses: Asked, header: string, chunks: seq<string>) returns (r: Result<Asked, Exit>)
    ensures r == UptimeAnswer(askedProcesses, header, chunks)
  {
    var count := Count(header);
    if count.Failure? {
      return Failure(count.error);
    }
    var n := count.value;
    var asked := askedProcesses;
    var i := 0;
    while i < n
      invariant 0 <= i
      invariant UptimeAnswer(askedProcesses, header, chunks) == ReadUptimes(asked, chunks, i, n, DecodeUptime)
      decreases n - i
    {
      var rec := DecodeUptime(Received(chunks, i));
      if rec.Failure? {
        return Failure(rec.error);
      }
      asked := SetUptime(asked, rec.value.0, rec.value.1);
      i := i + 1;
    }
    r := Success(asked);
  }

  /** The process loop of `getProcessBuffer` as written: `i < n - 1`. */
  method GetProcessBuffer(askedProcesses: Asked, header: string, chunks: seq<string>) returns (r: Result<Asked, Exit>)
    ensures r == AsWrittenProcessAnswer(askedProcesses, header, chunks)
  {
    var count := Count(header);
    if count.Failure? {
      return Failure(count.error);
    }
    r := ReadProcessRecords(askedProcesses, chunks, count.value - 1, DecodeProcess);
  }

  /** The record loop of `getProcessBuffer`: records `0` to `n - 1`, each
      decoded and folded in, stopping at the first that does not decode. */
  method ReadProcessRecords(askedProcesses: Asked, chunks: seq<string>, n: int,
                            decode: string -> Result<(int, string, real), Exit>)
    returns (r: Result<Asked, Exit>)
    ensures r == ReadProcesses(askedProcesses, chunks, 0, n, decode)
  {
    var asked := askedProcesses;
    var i := 0;
    while i < n
      invariant 0 <= i
      invariant ReadProcesses(askedProcesses, chunks, 0, n, decode) == ReadProcesses(asked, chunks, i, n, decode)
      decreases n - i
    {
      var rec := decode(Received(chunks, i));
      if rec.Failure? {
        return Failure(rec.error);
      }
      asked := AddProcess(asked, rec.value.0, rec.value.1, rec.value.2);
      i := i + 1;
    }
    r := Success(asked);
  }

  // ---------------------------------------------------------------------
  // What the client learns from the daemon's answers
  // ---------------------------------------------------------------------

  /** A name and its seconds that the uptime record carries intact. */
  predicate SendableUptime(name: string, v: real) {
    SOH !in name && '\0' !in name && Fits(UptimeRecord(name, v))
  }

  /** A process that its record carries intact. */
  predicate SendableProcess(pid: int, p: Process) {
    NoSeparators(p.name) && Fits(ProcessRecord(pid, p))
  }

  lemma ReadUptimesStep(asked: Asked, chunks: seq<string>, i: nat, n: int, decode: string -> Result<(string, real), Exit>,
                        name: string, v: real)
    requires i < n && decode(Received(chunks, i)) == Success((name, v))
    ensures ReadUptimes(asked, chunks, i, n, decode) == ReadUptimes(SetUptime(asked, name, v), chunks, i + 1, n, decode)
  {
  }

  /** The uptime records `recs` applied in order. */
  function SetAll(asked: Asked, recs: seq<(string, real)>): Asked
    decreases |recs|
  {
    if |recs| == 0 then asked else SetAll(SetUptime(asked, recs[0].0, recs[0].1), recs[1..])
  }

  /** The uptime loop over reads that decode to `recs` applies them in order. */
  lemma {:induction false} UptimesFold(asked: Asked, chunks: seq<string>, recs: seq<(string, real)>, i: nat, n: nat,
                                       decode: string -> Result<(string, real), Exit>)
    requires i <= n <= |recs|
    requires forall k :: i <= k < n ==> decode(Received(chunks, k)) == Success(recs[k])
    ensures ReadUptimes(asked, chunks, i, n, decode) == Success(SetAll(asked, recs[i..n]))
    decreases n - i
  {
    if i < n {
      ReadUptimesStep(asked, chunks, i, n, decode, recs[i].0, recs[i].1);
      UptimesFold(SetUptime(asked, recs[i].0, recs[i].1), chunks, recs, i + 1, n, decode);
      assert recs[i..n][0] == recs[i] && recs[i..n][1..] == recs[i + 1..n];
    }
  }

  /** Uptime records with distinct names: each name holds its seconds and
      the pid it held, and no other asked name changes. */
  lemma {:induction false} SetAllHolds(asked: Asked, recs: seq<(string, real)>)
    requires forall j, k :: 0 <= j < k < |recs| ==> recs[j].0 != recs[k].0
    ensures var r := SetAll(asked, recs);
      && (forall a :: a in r <==> a in asked || exists k :: 0 <= k < |recs| && recs[k].0 == a)
      && (forall k :: 0 <= k < |recs| ==> r[recs[k].0] == Sighting(HeldPid(asked, recs[k].0), recs[k].1))
      && (forall a :: a in asked && (forall k :: 0 <= k < |recs| ==> recs[k].0 != a) ==> r[a] == asked[a])
    decreases |recs|
  {
    if |recs| > 0 {
      var (m, v) := recs[0];
      var next := SetUptime(asked, m, v);
      var rest := recs[1..];
      SetAllHolds(next, rest);
      var r := SetAll(next, rest);
      forall k | 0 <= k < |recs|
        ensures r[recs[k].0] == Sighting(HeldPid(asked, recs[k].0), recs[k].1)
      {
        if k == 0 {
          assert forall j :: 0 <= j < |rest| ==> rest[j].0 != m;
        } else {
          assert recs[k] == rest[k - 1] && recs[k].0 != m;
        }
      }
      forall a
        ensures a in r <==> a in asked || exists k :: 0 <= k < |recs| && recs[k].0 == a
      {
        if exists k :: 0 <= k < |recs| && recs[k].0 == a {
          var k :| 0 <= k < |recs| && recs[k].0 == a;
          if k > 0 {
            assert rest[k - 1].0 == a;
          }
        }
        if exists k :: 0 <= k < |rest| && rest[k].0 == a {
          var k :| 0 <= k < |rest| && rest[k].0 == a;
          assert recs[k + 1].0 == a;
        }
      }
      forall a | a in asked && (forall k :: 0 <= k < |recs| ==> recs[k].0 != a)
        ensures r[a] == asked[a]
      {
        assert recs[0].0 != a;
        forall k | 0 <= k < |rest|
          ensures rest[k].0 != a
        {
          assert rest[k] == recs[k + 1];
        }
      }
    }
  }

  lemma ReadProcessesStep(asked: Asked, chunks: seq<string>, i: nat, n: int, decode: string -> Result<(int, string, real), Exit>,
                          pid: int, name: string, v: real)
    requires i < n && decode(Received(chunks, i)) == Success((pid, name, v))
    ensures ReadProcesses(asked, chunks, i, n, decode) == ReadProcesses(AddProcess(asked, pid, name, v), chunks, i + 1, n, decode)
  {
  }

  /** The seconds of the names `ns`, as the client reads them back. */
  function UptimesSeen(u: Ledger, ns: seq<string>): seq<(string, real)>
    requires forall n :: n in ns ==> n in u
  {
    seq(|ns|, k requires 0 <= k < |ns| => (ns[k], Rounded(u[ns[k]])))
  }

  /** The pids `ps` with their names and start ticks, as the client reads them back. */
  function ProcessesSeen(t: Table, ps: seq<int>): seq<(int, string, real)>
    requires forall p :: p in ps ==> p in t
  {
    seq(|ps|, k requires 0 <= k < |ps| => var p := ps[k]; assert p in ps; (p, t[p].name, t[p].startTick as real))
  }

  /** The client's uptime loop over the records of the names `ns` applies
      each name's "%f" seconds in order. */
  lemma UptimeRecordsRead(asked: Asked, u: Ledger, ns: seq<string>)
    requires forall n :: n in ns ==> n in u && SendableUptime(n, u[n])
    ensures ReadUptimes(asked, UptimeRecords(u, ns), 0, |ns|, DecodeUptime) == Success(SetAll(asked, UptimesSeen(u, ns)))
  {
    var chunks := UptimeRecords(u, ns);
    var recs := UptimesSeen(u, ns);
    forall k | 0 <= k < |ns|
      ensures DecodeUptime(Received(chunks, k)) == Success(recs[k])
    {
      DecodeUptimeRecord(ns[k], u[ns[k]]);
    }
    UptimesFold(asked, chunks, recs, 0, |ns|, DecodeUptime);
    assert recs[0..|ns|] == recs;
  }


  /** The uptime answer read back is the records of the ledger, in the
      order the daemon sends them, applied to the asked names. */
  lemma UptimeAnswerApplies(asked: Asked, u: Ledger) returns (ns: seq<string>)
    requires forall n :: n in u ==> SendableUptime(n, u[n])
    ensures |ns| == |u| && (forall n :: n in u <==> n in ns)
    ensures forall j, k :: 0 <= j < k < |ns| ==> ns[j] != ns[k]
    ensures var sent := UptimeReply(u);
      UptimeAnswer(asked, sent[0], sent[1..]) == Success(SetAll(asked, UptimesSeen(u, ns)))
  {
    ns := UptimeReplyOrdered(u);
    var sent := UptimeReply(u);
    assert Count(sent[0]) == Success(|ns|);
    forall j, k | 0 <= j < k < |ns|
      ensures ns[j] != ns[k]
    {
      LessIrreflexive(ns[j]);
    }
    var recs := UptimesSeen(u, ns);
    assert sent[1..] == UptimeRecords(u, ns);
    UptimeRecordsRead(asked, u, ns);
  }

  /** Reading the uptime answer: every name of the daemon's ledger is now
      asked, with the seconds "%f" gave it and the pid it held; every other
      asked name is untouched. */
  lemma UptimeRoundTrip(asked: Asked, u: Ledger)
    requires forall n :: n in u ==> SendableUptime(n, u[n])
    ensures var sent := UptimeReply(u);
      UptimeAnswer(asked, sent[0], sent[1..]).Success?
    ensures var sent := UptimeReply(u);
      var r := UptimeAnswer(asked, sent[0], sent[1..]).value;
      && (forall n :: n in r <==> n in asked || n in u)
      && (forall n :: n in u ==> r[n] == Sighting(HeldPid(asked, n), Rounded(u[n])))
      && (forall n :: n in asked && n !in u ==> r[n] == asked[n])
  {
    var ns := UptimeAnswerApplies(asked, u);
    SeenUptimesHold(asked, u, ns);
  }

  /** The records of all the ledger's names, applied: each name holds its
      "%f" seconds and the pid it held, and no other asked name changes. */
  lemma SeenUptimesHold(asked: Asked, u: Ledger, ns: seq<string>)
    requires forall n :: n in u <==> n in ns
    requires forall j, k :: 0 <= j < k < |ns| ==> ns[j] != ns[k]
    ensures var r := SetAll(asked, UptimesSeen(u, ns));
      && (forall n :: n in r <==> n in asked || n in u)
      && (forall n :: n in u ==> r[n] == Sighting(HeldPid(asked, n), Rounded(u[n])))
      && (forall n :: n in asked && n !in u ==> r[n] == asked[n])
  {
    var recs := UptimesSeen(u, ns);
    assert forall k :: 0 <= k < |recs| ==> recs[k].0 == ns[k];
    SetAllHolds(asked, recs);
    var r := SetAll(asked, recs);
    forall n
      ensures n in r <==> n in asked || n in u
    {
      if n in u {
        var k :| 0 <= k < |ns| && ns[k] == n;
        assert recs[k].0 == n;
      }
    }
    forall n | n in u
      ensures r[n] == Sighting(HeldPid(asked, n), Rounded(u[n]))
    {
      var k :| 0 <= k < |ns| && ns[k] == n;
      assert recs[k] == (n, Rounded(u[n]));
    }
  }

  /** The process records `recs` applied in order. */
  function AddAll(asked: Asked, recs: seq<(int, string, real)>): Asked
    decreases |recs|
  {
    if |recs| == 0 then asked else AddAll(AddProcess(asked, recs[0].0, recs[0].1, recs[0].2), recs[1..])
  }

  /** The process loop over reads that decode to `recs` applies them in order. */
  lemma {:induction false} ProcessesFold(asked: Asked, chunks: seq<string>, recs: seq<(int, string, real)>, i: nat, n: nat,
                                         decode: string -> Result<(int, string, real), Exit>)
    requires i <= n <= |recs|
    requires forall k :: i <= k < n ==> decode(Received(chunks, k)) == Success(recs[k])
    ensures ReadProcesses(asked, chunks, i, n, decode) == Success(AddAll(asked, recs[i..n]))
    decreases n - i
  {
    if i < n {
      ReadProcessesStep(asked, chunks, i, n, decode, recs[i].0, recs[i].1, recs[i].2);
      ProcessesFold(AddProcess(asked, recs[i].0, recs[i].1, recs[i].2), chunks, recs, i + 1, n, decode);
      assert recs[i..n][0] == recs[i] && recs[i..n][1..] == recs[i + 1..n];
    }
  }

  /** No other record of `recs` carries the name of the `k`-th. */
  predicate OnlyAt(recs: seq<(int, string, real)>, k: nat)
    requires k < |recs|
  {
    forall j :: 0 <= j < |recs| && j != k ==> recs[j].1 != recs[k].1
  }

  /** Process records applied: exactly their names are added, a name only
      the `k`-th record carries gets its pid and its number added to the
      seconds it held, and no other asked name changes. */
  lemma {:induction false} AddAllHolds(asked: Asked, recs: seq<(int, string, real)>)
    ensures var r := AddAll(asked, recs);
      && (forall a :: a in r <==> a in asked || exists k :: 0 <= k < |recs| && recs[k].1 == a)
      && (forall a :: a in asked && (forall k :: 0 <= k < |recs| ==> recs[k].1 != a) ==> r[a] == asked[a])
      && (forall k :: 0 <= k < |recs| && OnlyAt(recs, k) ==>
            r[recs[k].1] == Sighting(recs[k].0, Held(asked, recs[k].1) + recs[k].2))
    decreases |recs|
  {
    if |recs| > 0 {
      var (p, m, v) := recs[0];
      var next := AddProcess(asked, p, m, v);
      var rest := recs[1..];
      AddAllHolds(next, rest);
      var r := AddAll(next, rest);
      forall a
        ensures a in r <==> a in asked || exists k :: 0 <= k < |recs| && recs[k].1 == a
      {
        if exists k :: 0 <= k < |recs| && recs[k].1 == a {
          var k :| 0 <= k < |recs| && recs[k].1 == a;
          if k > 0 {
            assert rest[k - 1].1 == a;
          }
        }
        if exists k :: 0 <= k < |rest| && rest[k].1 == a {
          var k :| 0 <= k < |rest| && rest[k].1 == a;
          assert recs[k + 1].1 == a;
        }
      }
      forall a | a in asked && (forall k :: 0 <= k < |recs| ==> recs[k].1 != a)
        ensures r[a] == asked[a]
      {
        assert recs[0].1 != a;
        forall k | 0 <= k < |rest|
          ensures rest[k].1 != a
        {
          assert rest[k] == recs[k + 1];
        }
      }
      forall k | 0 <= k < |recs| && OnlyAt(recs, k)
        ensures r[recs[k].1] == Sighting(recs[k].0, Held(asked, recs[k].1) + recs[k].2)
      {
        if k == 0 {
          forall j | 0 <= j < |rest|
            ensures rest[j].1 != m
          {
            assert rest[j] == recs[j + 1];
          }
        } else {
          assert recs[k] == rest[k - 1] && recs[k].1 != m;
          forall j | 0 <= j < |rest| && j != k - 1
            ensures rest[j].1 != rest[k - 1].1
          {
            assert rest[j] == recs[j + 1];
          }
          assert OnlyAt(rest, k - 1);
        }
      }
    }
  }

  /** The client's process loop over the first `n` records of the pids
      `ps` applies them in order. */
  lemma ProcessRecordsRead(asked: Asked, t: Table, ps: seq<int>, n: nat)
    requires n <= |ps|
    requires forall p :: p in ps ==> p in t && SendableProcess(p, t[p])
    ensures ReadProcesses(asked, ProcessRecords(t, ps), 0, n, DecodeProcess) == Success(AddAll(asked, ProcessesSeen(t, ps)[..n]))
  {
    var chunks := ProcessRecords(t, ps);
    var recs := ProcessesSeen(t, ps);
    forall k | 0 <= k < |ps|
      ensures DecodeProcess(Received(chunks, k)) == Success(recs[k])
    {
      DecodeProcessRecord(ps[k], t[ps[k]]);
    }
    ProcessesFold(asked, chunks, recs, 0, n, DecodeProcess);
    assert recs[0..n] == recs[..n];
  }

  /** The process answer: the count of the table's records, then the
      records of its pids in ascending order. */
  lemma ProcessRepliesRead(t: Table) returns (ps: seq<int>)
    ensures |ps| == |t| && (forall p :: p in t <==> p in ps)
    ensures forall a, b :: 0 <= a < b < |ps| ==> ps[a] < ps[b]
    ensures Count(ProcessReply(t)[0]) == Success(|ps|)
    ensures ProcessReply(t)[1..] == ProcessRecords(t, ps)
  {
    ps := ProcessReplyOrdered(t);
  }

  /** Reading every record of the process answer applies them all in
      ascending pid order. */
  lemma CorrectedAnswerRead(asked: Asked, t: Table) returns (ps: seq<int>)
    requires forall p :: p in t ==> SendableProcess(p, t[p])
    ensures |ps| == |t| && (forall p :: p in t <==> p in ps)
    ensures forall a, b :: 0 <= a < b < |ps| ==> ps[a] < ps[b]
    ensures CorrectedProcessAnswer(asked, ProcessReply(t)[0], ProcessReply(t)[1..])
      == Success(AddAll(asked, ProcessesSeen(t, ps)[..|ps|]))
  {
    ps := ProcessRepliesRead(t);
    ProcessRecordsRead(asked, t, ps, |ps|);
  }

  /** Reading one record fewer than the count applies all but the last
      record, in ascending pid order. */
  lemma AsWrittenAnswerRead(asked: Asked, t: Table) returns (ps: seq<int>)
    requires forall p :: p in t ==> SendableProcess(p, t[p])
    ensures |ps| == |t| && (forall p :: p in t <==> p in ps)
    ensures forall a, b :: 0 <= a < b < |ps| ==> ps[a] < ps[b]
    ensures AsWrittenProcessAnswer(asked, ProcessReply(t)[0], ProcessReply(t)[1..])
      == Success(AddAll(asked, ProcessesSeen(t, ps)[..if |ps| == 0 then 0 else |ps| - 1]))
  {
    ps := ProcessRepliesRead(t);
    AllButLastRead(asked, t, ps);
  }

  lemma AllButLastRead(asked: Asked, t: Table, ps: seq<int>)
    requires forall p :: p in ps ==> p in t && SendableProcess(p, t[p])
    ensures ReadProcesses(asked, ProcessRecords(t, ps), 0, |ps| - 1, DecodeProcess)
      == Success(AddAll(asked, ProcessesSeen(t, ps)[..if |ps| == 0 then 0 else |ps| - 1]))
  {
    if |ps| > 0 {
      ProcessRecordsRead(asked, t, ps, |ps| - 1);
    } else {
      assert ProcessesSeen(t, ps)[..0] == [];
    }
  }

  /** A pid whose name no other pid of the table has. */
  predicate UniqueName(t: Table, p: int)
    requires p in t
  {
    forall q :: q in t && q != p ==> t[q].name != t[p].name
  }

  /** The records of the pids `ps` (ascending) applied, up to `n`: the names
      of those pids are added, a name only one pid has gets that pid and its
      start tick added to the seconds it held, no other asked name changes. */
  lemma SeenProcessesHold(asked: Asked, t: Table, ps: seq<int>, n: nat)
    requires n <= |ps| && forall p :: p in ps ==> p in t
    requires forall a, b :: 0 <= a < b < |ps| ==> ps[a] < ps[b]
    ensures var r := AddAll(asked, ProcessesSeen(t, ps)[..n]);
      && (forall a :: a in r <==> a in asked || exists k :: 0 <= k < n && t[ps[k]].name == a)
      && (forall a :: a in asked && (forall k :: 0 <= k < n ==> t[ps[k]].name != a) ==> r[a] == asked[a])
      && (forall k :: 0 <= k < n && UniqueName(t, ps[k]) ==>
            r[t[ps[k]].name] == Sighting(ps[k], Held(asked, t[ps[k]].name) + t[ps[k]].startTick as real))
  {
    var recs := ProcessesSeen(t, ps)[..n];
    assert forall k :: 0 <= k < n ==> recs[k] == (ps[k], t[ps[k]].name, t[ps[k]].startTick as real);
    AddAllHolds(asked, recs);
    forall k | 0 <= k < n && UniqueName(t, ps[k])
      ensures OnlyAt(recs, k)
    {
      forall j | 0 <= j < n && j != k
        ensures recs[j].1 != recs[k].1
      {
        assert ps[j] != ps[k];
      }
    }
  }

  /** Reading every record of the process answer: exactly the names of the
      daemon's table are added, a name that only one pid has gets that pid
      and its start tick added to the seconds it held, and every other asked
      name is untouched. */
  lemma CorrectedReadsAll(asked: Asked, t: Table)
    requires forall p :: p in t ==> SendableProcess(p, t[p])
    ensures var sent := ProcessReply(t);
      CorrectedProcessAnswer(asked, sent[0], sent[1..]).Success?
    ensures var sent := ProcessReply(t);
      var r := CorrectedProcessAnswer(asked, sent[0], sent[1..]).value;
      && (forall a :: a in r <==> a in asked || exists p :: p in t && t[p].name == a)
      && (forall a :: a in asked && (forall p :: p in t ==> t[p].name != a) ==> r[a] == asked[a])
      && (forall p :: p in t && UniqueName(t, p) ==>
            r[t[p].name] == Sighting(p, Held(asked, t[p].name) + t[p].startTick as real))
  {
    var ps := CorrectedAnswerRead(asked, t);
    AllProcessesHold(asked, t, ps);
  }

  /** The records of all the table's pids applied, in pid terms. */
  lemma AllProcessesHold(asked: Asked, t: Table, ps: seq<int>)
    requires forall p :: p in t <==> p in ps
    requires forall a, b :: 0 <= a < b < |ps| ==> ps[a] < ps[b]
    ensures var r := AddAll(asked, ProcessesSeen(t, ps)[..|ps|]);
      && (forall a :: a in r <==> a in asked || exists p :: p in t && t[p].name == a)
      && (forall a :: a in asked && (forall p :: p in t ==> t[p].name != a) ==> r[a] == asked[a])
      && (forall p :: p in t && UniqueName(t, p) ==>
            r[t[p].name] == Sighting(p, Held(asked, t[p].name) + t[p].startTick as real))
  {
    SeenProcessesHold(asked, t, ps, |ps|);
    AllPidsHold(asked, t, ps, AddAll(asked, ProcessesSeen(t, ps)[..|ps|]));
  }

  /** The facts of `SeenProcessesHold` over all of `ps`, restated over the
      pids of the table. */
  lemma AllPidsHold(asked: Asked, t: Table, ps: seq<int>, r: Asked)
    requires (forall k :: 0 <= k < |ps| ==> ps[k] in t) && forall p :: p in t ==> p in ps
    requires forall a, b :: 0 <= a < b < |ps| ==> ps[a] < ps[b]
    requires forall a :: a in r <==> a in asked || exists k :: 0 <= k < |ps| && t[ps[k]].name == a
    requires forall a :: a in asked && (forall k :: 0 <= k < |ps| ==> t[ps[k]].name != a) ==> r[a] == asked[a]
    requires forall k :: 0 <= k < |ps| && UniqueName(t, ps[k]) ==>
      r[t[ps[k]].name] == Sighting(ps[k], Held(asked, t[ps[k]].name) + t[ps[k]].startTick as real)
    ensures forall a :: a in r <==> a in asked || exists p :: p in t && t[p].name == a
    ensures forall a :: a in asked && (forall p :: p in t ==> t[p].name != a) ==> r[a] == asked[a]
    ensures forall p :: p in t && UniqueName(t, p) ==>
      r[t[p].name] == Sighting(p, Held(asked, t[p].name) + t[p].startTick as real)
  {
    forall a
      ensures a in r <==> a in asked || exists p :: p in t && t[p].name == a
    {
      if exists p :: p in t && t[p].name == a {
        var p :| p in t && t[p].name == a;
        var k :| 0 <= k < |ps| && ps[k] == p;
        assert t[ps[k]].name == a;
      }
    }
    forall a | a in asked && (forall p :: p in t ==> t[p].name != a)
      ensures r[a] == asked[a]
    {
      forall k | 0 <= k < |ps|
        ensures t[ps[k]].name != a
      {
        assert ps[k] in t;
      }
    }
    forall p | p in t && UniqueName(t, p)
      ensures r[t[p].name] == Sighting(p, Held(asked, t[p].name) + t[p].startTick as real)
    {
      var k :| 0 <= k < |ps| && ps[k] == p;
    }
  }

  /** Reading the process answer as written, with `n - 1` reads: the record
      of the largest pid is never read, so a name only that pid has and that
      was not asked never appears; every other pid whose name is its own is
      read as in `CorrectedReadsAll`. */
  lemma AsWrittenSkipsLast(asked: Asked, t: Table)
    requires forall p :: p in t ==> SendableProcess(p, t[p])
    ensures var sent := ProcessReply(t);
      AsWrittenProcessAnswer(asked, sent[0], sent[1..]).Success?
    ensures var sent := ProcessReply(t);
      var r := AsWrittenProcessAnswer(asked, sent[0], sent[1..]).value;
      && (forall p :: p in t && (forall q :: q in t ==> q <= p) && UniqueName(t, p) && t[p].name !in asked ==>
            t[p].name !in r)
      && (forall p, q :: p in t && q in t && p < q && UniqueName(t, p) ==>
            t[p].name in r && r[t[p].name] == Sighting(p, Held(asked, t[p].name) + t[p].startTick as real))
  {
    var ps := AsWrittenAnswerRead(asked, t);
    AllButLastHold(asked, t, ps);
  }

  /** The records of all pids but the largest applied, in pid terms. */
  lemma AllButLastHold(asked: Asked, t: Table, ps: seq<int>)
    requires forall p :: p in t <==> p in ps
    requires forall a, b :: 0 <= a < b < |ps| ==> ps[a] < ps[b]
    ensures var r := AddAll(asked, ProcessesSeen(t, ps)[..if |ps| == 0 then 0 else |ps| - 1]);
      && (forall p :: p in t && (forall q :: q in t ==> q <= p) && UniqueName(t, p) && t[p].name !in asked ==>
            t[p].name !in r)
      && (forall p, q :: p in t && q in t && p < q && UniqueName(t, p) ==>
            t[p].name in r && r[t[p].name] == Sighting(p, Held(asked, t[p].name) + t[p].startTick as real))
  {
    var n := if |ps| == 0 then 0 else |ps| - 1;
    SeenProcessesHold(asked, t, ps, n);
    ButLastPidsHold(asked, t, ps, n, AddAll(asked, ProcessesSeen(t, ps)[..n]));
  }

  /** The facts of `SeenProcessesHold` over all of `ps` but its last pid,
      restated over the pids of the table. */
  lemma ButLastPidsHold(asked: Asked, t: Table, ps: seq<int>, n: nat, r: Asked)
    requires (forall k :: 0 <= k < |ps| ==> ps[k] in t) && forall p :: p in t ==> p in ps
    requires forall a, b :: 0 <= a < b < |ps| ==> ps[a] < ps[b]
    requires n == if |ps| == 0 then 0 else |ps| - 1
    requires forall a :: a in r <==> a in asked || exists k :: 0 <= k < n && t[ps[k]].name == a
    requires forall k :: 0 <= k < n && UniqueName(t, ps[k]) ==>
      r[t[ps[k]].name] == Sighting(ps[k], Held(asked, t[ps[k]].name) + t[ps[k]].startTick as real)
    ensures forall p :: p in t && (forall q :: q in t ==> q <= p) && UniqueName(t, p) && t[p].name !in asked ==>
      t[p].name !in r
    ensures forall p, q :: p in t && q in t && p < q && UniqueName(t, p) ==>
      t[p].name in r && r[t[p].name] == Sighting(p, Held(asked, t[p].name) + t[p].startTick as real)
  {
    forall p | p in t && (forall q :: q in t ==> q <= p) && UniqueName(t, p) && t[p].name !in asked
      ensures t[p].name !in r
    {
      LastUnread(t, ps, n, p);
    }
    forall p, q | p in t && q in t && p < q && UniqueName(t, p)
      ensures t[p].name in r && r[t[p].name] == Sighting(p, Held(asked, t[p].name) + t[p].startTick as real)
    {
      var k := EarlierRead(t, ps, n, p, q);
    }
  }

  /** The largest pid of the table, when no other pid has its name, is the
      one whose name the first `n` pids of `ps` do not carry. */
  lemma LastUnread(t: Table, ps: seq<int>, n: nat, p: int)
    requires (forall k :: 0 <= k < |ps| ==> ps[k] in t) && forall p :: p in t ==> p in ps
    requires forall a, b :: 0 <= a < b < |ps| ==> ps[a] < ps[b]
    requires n == if |ps| == 0 then 0 else |ps| - 1
    requires p in t && (forall q :: q in t ==> q <= p) && UniqueName(t, p)
    ensures forall k :: 0 <= k < n ==> t[ps[k]].name != t[p].name
  {
    var k :| 0 <= k < |ps| && ps[k] == p;
    assert k == n by {
      assert ps[n] in t;
    }
    forall j | 0 <= j < n
      ensures t[ps[j]].name != t[p].name
    {
      assert ps[j] < ps[k];
    }
  }

  /** A pid below another one of the table is among the first `n` of `ps`. */
  lemma EarlierRead(t: Table, ps: seq<int>, n: nat, p: int, q: int) returns (k: nat)
    requires (forall k :: 0 <= k < |ps| ==> ps[k] in t) && forall p :: p in t ==> p in ps
    requires forall a, b :: 0 <= a < b < |ps| ==> ps[a] < ps[b]
    requires n == if |ps| == 0 then 0 else |ps| - 1
    requires p in t && q in t && p < q
    ensures k < n && ps[k] == p
  {
    k :| 0 <= k < |ps| && ps[k] == p;
    var l :| 0 <= l < |ps| && ps[l] == q;
    assert k < n by {
      assert ps[k] < ps[l];
    }
  }
}
