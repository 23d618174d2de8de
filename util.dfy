/** util.cpp: `isFloat`, the test that ends a name in the data file, and
    `trim`. */
module Util {
  import opened Wrappers
  import opened Text
  import opened Decimal

  /** What `isFloat` accepts: only digits and points, and at most one point. */
  predicate FloatText(s: string) {
    (forall i :: 0 <= i < |s| ==> IsDigit(s[i]) || s[i] == '.') && multiset(s)['.'] <= 1
  }

  /** util.cpp `isFloat`: scans the characters, counting points, and stops at
      the first character that is neither a digit nor the first point. */
  method IsFloat(str: string) returns (containsOnlyNumber: bool)
    ensures containsOnlyNumber == FloatText(str)
  {
    containsOnlyNumber := true;
    var dotCount := 0;
    var k := 0;
    while k < |str|
      invariant 0 <= k <= |str|
      invariant FloatText(str[..k]) && dotCount == multiset(str[..k])['.']
    {
      var s := str[k];
      assert str[..k + 1] == str[..k] + [s];
      if !IsDigit(s) && (s != '.' || dotCount > 0) {
        containsOnlyNumber := false;
        assert str == str[..k + 1] + str[k + 1..];
        break;
      }
      if s == '.' {
        dotCount := dotCount + 1;
      }
      k := k + 1;
    }
    if containsOnlyNumber {
      assert str[..k] == str;
    }
  }

  /** The accepted texts with no digit at all ("" and ".") are exactly the ones
      std::stof refuses: every other accepted text reads as a number. */
  lemma {:induction false} FloatTextParses(s: string)
    requires FloatText(s)
    ensures ParseFloat(s).Some? <==> exists i :: 0 <= i < |s| && IsDigit(s[i])
  {
    if |s| > 0 && IsDigit(s[0]) {
      PlainText(s);
      DigitLeads(s);
    } else if |s| > 0 {
      assert s[0] == '.';
      PointLeads(s);
    } else {
      assert SkipSpaces(s) == s;
    }
  }

  lemma DigitLeads(s: string)
    requires |s| > 0 && IsDigit(s[0])
    ensures UnsignedFloat(s).Some?
  {
  }

  lemma PointLeads(s: string)
    requires FloatText(s) && |s| > 0 && s[0] == '.'
    ensures ParseFloat(s).Some? <==> exists i :: 0 <= i < |s| && IsDigit(s[i])
  {
    assert SkipSpaces(s) == s && Unsigned(s) == (false, s);
    assert DigitRun(s) == 0;
    assert s[0..] == s;
    var frac := s[1..];
    assert '.' !in frac by {
      assert s == [s[0]] + frac;
      assert multiset(s)['.'] == 1 + multiset(frac)['.'];
    }
    if exists i :: 0 <= i < |s| && IsDigit(s[i]) {
      var i :| 0 <= i < |s| && IsDigit(s[i]);
      assert |frac| > 0 && frac[0] == s[1];
      assert frac[0] != '.' by { assert frac[0] in frac; }
    }
  }

  /** What `isFloat` accepts: the empty text, a lone point and a point at
      either end. */
  lemma FloatTextAccepts()
    ensures FloatText("") && FloatText(".") && FloatText("5.") && FloatText(".5")
  {
    assert multiset("5.")['.'] == 1 by { assert "5." == ['5'] + ['.']; }
    assert multiset(".5")['.'] == 1 by { assert ".5" == ['.'] + ['5']; }
  }

  /** What `isFloat` refuses: any text with a sign or an exponent. */
  lemma FloatTextRejects(s: string)
    requires '-' in s || '+' in s || 'e' in s
    ensures !FloatText(s) && !FloatText("-1") && !FloatText("1e5")
  {
    assert "-1"[0] == '-' && "1e5"[1] == 'e';
  }

  /** The first loop of `trim`: skip whitespace while more than one character is left. */
  function StripLeading(s: string): (r: string)
    ensures |r| <= |s| && (|s| > 0 ==> |r| > 0)
  {
    if |s| > 1 && IsSpace(s[0]) then StripLeading(s[1..]) else s
  }

  /** The second loop of `trim`: the same from the end. */
  function StripTrailing(s: string): (r: string)
    ensures |r| <= |s| && (|s| > 0 ==> |r| > 0)
  {
    if |s| > 1 && IsSpace(s[|s| - 1]) then StripTrailing(s[..|s| - 1]) else s
  }

  /** What `trim` leaves of a non-empty string. */
  function Trimmed(s: string): string
    requires |s| > 0
  {
    StripTrailing(StripLeading(s))
  }

  /** util.cpp `trim`: moves `start` forward and `end` back over whitespace and
      erases what lies outside.  The source reads `s[-1]` on an empty string. */
  method Trim(s: string) returns (t: string)
    requires |s| > 0
    ensures t == Trimmed(s)
  {
    var start := 0;
    var end := |s| - 1;
    while start != end && IsSpace(s[start])
      invariant 0 <= start <= end
      invariant StripLeading(s) == StripLeading(s[start..])
      decreases end - start
    {
      LeadingStep(s, start);
      start := start + 1;
    }
    t := s[start..];
    ghost var u := t;
    end := |t| - 1;
    assert t[..end + 1] == t;
    while end != 0 && IsSpace(t[end])
      invariant 0 <= end < |t|
      invariant StripTrailing(u) == StripTrailing(t[..end + 1])
      decreases end
    {
      TrailingStep(t, end);
      end := end - 1;
    }
    t := t[..end + 1];
  }

  lemma LeadingStep(s: string, start: nat)
    requires start < |s| - 1 && IsSpace(s[start])
    ensures StripLeading(s[start..]) == StripLeading(s[start + 1..])
  {
    assert s[start..][1..] == s[start + 1..];
  }

  lemma TrailingStep(t: string, end: nat)
    requires 0 < end < |t| && IsSpace(t[end])
    ensures StripTrailing(t[..end + 1]) == StripTrailing(t[..end])
  {
    assert t[..end + 1][..end] == t[..end];
  }

  predicate AllSpace(s: string) { forall i :: 0 <= i < |s| ==> IsSpace(s[i]) }

  /** A string of whitespace keeps only its last character: the first loop
      stops when `start` meets `end`. */
  lemma {:induction false} TrimAllSpace(s: string)
    requires |s| > 0 && AllSpace(s)
    ensures Trimmed(s) == [s[|s| - 1]]
  {
    LeadingAllSpace(s);
  }

  lemma {:induction false} LeadingAllSpace(s: string)
    requires |s| > 0 && AllSpace(s)
    ensures StripLeading(s) == [s[|s| - 1]]
    decreases |s|
  {
    if |s| > 1 {
      LeadingAllSpace(s[1..]);
    }
  }

  /** `trim` removes exactly the whitespace around the text and leaves the
      text itself, spaces inside it included, as it was. */
  lemma TrimExact(p: string, m: string, q: string)
    requires AllSpace(p) && AllSpace(q)
    requires |m| > 0 && !IsSpace(m[0]) && !IsSpace(m[|m| - 1])
    ensures Trimmed(p + m + q) == m
  {
    LeadingSpace(p, m + q);
    assert p + m + q == p + (m + q);
    TrailingSpace(m, q);
  }

  lemma {:induction false} LeadingSpace(p: string, t: string)
    requires AllSpace(p) && |t| > 0 && !IsSpace(t[0])
    ensures StripLeading(p + t) == t
    decreases |p|
  {
    if |p| > 0 {
      assert (p + t)[1..] == p[1..] + t;
      LeadingSpace(p[1..], t);
    } else {
      assert p + t == t;
    }
  }

  lemma {:induction false} TrailingSpace(m: string, q: string)
    requires AllSpace(q) && |m| > 0 && !IsSpace(m[|m| - 1])
    ensures StripTrailing(m + q) == m
    decreases |q|
  {
    if |q| > 0 {
      var q' := q[..|q| - 1];
      assert (m + q)[..|m + q| - 1] == m + q';
      TrailingSpace(m, q');
    } else {
      assert m + q == m;
    }
  }

  /** Trimming twice is trimming once, for any text that is not all whitespace. */
  lemma TrimIdempotent(p: string, m: string, q: string)
    requires AllSpace(p) && AllSpace(q)
    requires |m| > 0 && !IsSpace(m[0]) && !IsSpace(m[|m| - 1])
    ensures Trimmed(Trimmed(p + m + q)) == Trimmed(p + m + q)
  {
    TrimExact(p, m, q);
    TrimExact("", m, "");
    assert "" + m + "" == m;
  }

  /** Every non-empty string that is not all whitespace is some text with
      whitespace around it, and `trim` leaves that text. */
  lemma TrimSplit(s: string) returns (a: nat, b: nat)
    requires |s| > 0 && !AllSpace(s)
    ensures a < b <= |s| && AllSpace(s[..a]) && AllSpace(s[b..])
    ensures !IsSpace(s[a]) && !IsSpace(s[b - 1])
    ensures Trimmed(s) == s[a..b]
  {
    a := FirstNonSpace(s);
    b := LastNonSpace(s, a);
    assert s == s[..a] + s[a..b] + s[b..];
    TrimExact(s[..a], s[a..b], s[b..]);
  }

  lemma FirstNonSpace(s: string) returns (a: nat)
    requires !AllSpace(s)
    ensures a < |s| && !IsSpace(s[a]) && AllSpace(s[..a])
  {
    var k :| 0 <= k < |s| && !IsSpace(s[k]);
    a := 0;
    while IsSpace(s[a])
      invariant 0 <= a <= k
      invariant AllSpace(s[..a])
      decreases k - a
    {
      a := a + 1;
    }
  }

  lemma LastNonSpace(s: string, a: nat) returns (b: nat)
    requires a < |s| && !IsSpace(s[a])
    ensures a < b <= |s| && !IsSpace(s[b - 1]) && AllSpace(s[b..])
  {
    b := |s|;
    while IsSpace(s[b - 1])
      invariant a < b <= |s|
      invariant AllSpace(s[b..])
      decreases b
    {
      b := b - 1;
    }
  }
}
