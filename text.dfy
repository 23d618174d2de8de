/** Character classes and the few std::string operations the core relies on,
    with std::string::size_type (a 64-bit unsigned integer) written out where
    the source lets it wrap around. */
module Text {
  import opened Wrappers

  /** `isdigit` */
  predicate IsDigit(c: char) { '0' <= c <= '9' }

  /** `isspace` in the "C" locale: space, \t, \n, \v, \f and \r */
  predicate IsSpace(c: char) { c == ' ' || '\t' <= c <= '\r' }

  predicate AllDigits(s: string) { forall i :: 0 <= i < |s| ==> IsDigit(s[i]) }

  predicate NoSpace(s: string) { forall i :: 0 <= i < |s| ==> !IsSpace(s[i]) }

  /** std::string::npos, the largest value of a 64-bit size_t */
  const NPOS: nat := 0xFFFF_FFFF_FFFF_FFFF

  /** A std::string is always shorter than npos. */
  predicate Fits(s: string) { |s| < NPOS }

  /** size_t addition and subtraction, modulo 2^64; a single wrap-around
      is written out, as `SizeModular` shows. */
  function SizeAdd(a: nat, b: nat): nat {
    if a + b <= NPOS then a + b
    else if a + b <= 2 * NPOS + 1 then a + b - (NPOS + 1)
    else (a + b) % (NPOS + 1)
  }

  function SizeSub(a: nat, b: nat): nat {
    if b <= a <= NPOS then a - b
    else if a < b <= a + NPOS + 1 then a + (NPOS + 1) - b
    else (a - b) % (NPOS + 1)
  }

  /** Both are the arithmetic of unsigned 64-bit integers. */
  lemma SizeModular(a: nat, b: nat)
    ensures SizeAdd(a, b) == (a + b) % (NPOS + 1)
    ensures SizeSub(a, b) == (a - b) % (NPOS + 1)
  {
    var m := NPOS + 1;
    if a + b <= NPOS {
    } else if a + b <= 2 * NPOS + 1 {
      assert a + b == (a + b - m) + 1 * m;
    }
    if b <= a <= NPOS {
    } else if a < b <= a + NPOS + 1 {
      assert a - b == (a + m - b) + (-1) * m;
    }
  }

  /** The first index of `c` in `s`. */
  function Find(s: string, c: char): (r: Option<nat>)
    ensures r.None? <==> c !in s
    ensures r.Some? ==> r.value < |s| && s[r.value] == c && c !in s[..r.value]
  {
    if |s| == 0 then None
    else if s[0] == c then Some(0)
    else
      match Find(s[1..], c)
      case None => None
      case Some(k) =>
        assert s[..k + 1] == [s[0]] + s[1..][..k];
        Some(k + 1)
  }

  /** The last index of `c` in `s` (std::string::find_last_of with one character). */
  function FindLast(s: string, c: char): (r: Option<nat>)
    ensures r.None? <==> c !in s
    ensures r.Some? ==> r.value < |s| && s[r.value] == c && c !in s[r.value + 1..]
  {
    if |s| == 0 then None
    else if s[|s| - 1] == c then Some(|s| - 1)
    else
      var r := FindLast(s[..|s| - 1], c);
      assert r.Some? ==> s[r.value + 1..] == s[..|s| - 1][r.value + 1..] + [s[|s| - 1]];
      assert r.None? ==> s == s[..|s| - 1] + [s[|s| - 1]];
      r
  }

  /** A found index as the source holds it: the index itself, or npos. */
  function Pos(r: Option<nat>): nat {
    match r
    case Some(k) => k
    case None => NPOS
  }

  /** std::string::substr(pos, n): at most `n` characters from `pos`
      (the source throws out_of_range when pos > size, which no caller reaches). */
  function Substr(s: string, pos: nat, n: nat): (r: string)
    requires pos <= |s|
    ensures |r| == (if pos + n <= |s| then n else |s| - pos)
    ensures forall i :: 0 <= i < |r| ==> r[i] == s[pos + i]
  {
    if pos + n <= |s| then s[pos..pos + n] else s[pos..]
  }

  /** The C string held by a zero-filled buffer: everything before the first NUL. */
  function CString(buf: string): (r: string)
    ensures '\0' !in r
    ensures r == buf || (|r| < |buf| && buf[|r|] == '\0')
    ensures r == buf[..|r|]
  {
    match Find(buf, '\0')
    case None => buf
    case Some(k) => buf[..k]
  }

  /** Words joined with single spaces. */
  function Join(words: seq<string>): string {
    if |words| == 0 then ""
    else if |words| == 1 then words[0]
    else words[0] + " " + Join(words[1..])
  }
}
