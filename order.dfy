/** The key orders std::map iterates in: `<` on pids, and std::string's
    lexicographic `<` on names (characters compared by code). */
module Order {

  /** std::string's `operator<`: lexicographic, a proper prefix comes first. */
  predicate Less(a: string, b: string)
    decreases |a|
  {
    if |a| == 0 then |b| > 0
    else if |b| == 0 then false
    else if a[0] != b[0] then a[0] < b[0]
    else Less(a[1..], b[1..])
  }

  lemma {:induction false} LessIrreflexive(a: string)
    ensures !Less(a, a)
    decreases |a|
  {
    if |a| > 0 {
      LessIrreflexive(a[1..]);
    }
  }

  lemma {:induction false} LessTransitive(a: string, b: string, c: string)
    requires Less(a, b) && Less(b, c)
    ensures Less(a, c)
    decreases |a|
  {
    if |a| > 0 && |b| > 0 && |c| > 0 && a[0] == b[0] && b[0] == c[0] {
      LessTransitive(a[1..], b[1..], c[1..]);
    }
  }

  lemma {:induction false} LessTotal(a: string, b: string)
    requires a != b
    ensures Less(a, b) || Less(b, a)
    decreases |a|
  {
    if |a| > 0 && |b| > 0 && a[0] == b[0] {
      assert a == [a[0]] + a[1..] && b == [b[0]] + b[1..];
      LessTotal(a[1..], b[1..]);
    }
  }

  lemma {:induction false} LessAsymmetric(a: string, b: string)
    requires Less(a, b)
    ensures !Less(b, a)
    decreases |a|
  {
    if |a| > 0 && |b| > 0 && a[0] == b[0] {
      LessAsymmetric(a[1..], b[1..]);
    }
  }

  /** `m` comes before every other element of `s`. */
  predicate IsLeastName(m: string, s: set<string>) {
    m in s && forall y :: y in s && y != m ==> Less(m, y)
  }

  lemma {:induction false} LeastNameExists(s: set<string>)
    requires s != {}
    ensures exists m :: IsLeastName(m, s)
    decreases |s|
  {
    var x :| x in s;
    if s != {x} {
      var rest := s - {x};
      LeastNameExists(rest);
      var m :| IsLeastName(m, rest);
      if Less(m, x) {
        assert IsLeastName(m, s);
      } else {
        LessTotal(m, x);
        forall y | y in s && y != x
          ensures Less(x, y)
        {
          if y != m {
            LessTransitive(x, m, y);
          }
        }
        assert IsLeastName(x, s);
      }
    } else {
      assert IsLeastName(x, s);
    }
  }

  lemma LeastNameUnique(m: string, n: string, s: set<string>)
    requires IsLeastName(m, s) && IsLeastName(n, s)
    ensures m == n
  {
    if m != n {
      LessAsymmetric(m, n);
    }
  }

  /** The names of `s` in the order a std::map<std::string, …> visits them. */
  ghost function SortedNames(s: set<string>): (r: seq<string>)
    ensures forall x :: x in s <==> x in r
    ensures s != {} ==> IsLeastName(r[0], s)
    decreases |s|
  {
    if s == {} then []
    else
      LeastNameExists(s);
      var m :| IsLeastName(m, s);
      var t := SortedNames(s - {m});
      [m] + t
  }

  /** The names come out in strictly ascending order. */
  lemma {:induction false} SortedNamesAscending(s: set<string>)
    ensures forall i, j :: 0 <= i < j < |SortedNames(s)| ==> Less(SortedNames(s)[i], SortedNames(s)[j])
    decreases |s|
  {
    if s != {} {
      var r := SortedNames(s);
      SortedNamesStep(s);
      SortedNamesAscending(s - {r[0]});
      forall i, j | 0 <= i < j < |r|
        ensures Less(r[i], r[j])
      {
        if i > 0 {
          assert r[i] == SortedNames(s - {r[0]})[i - 1];
          assert r[j] == SortedNames(s - {r[0]})[j - 1];
        } else {
          assert r[j] in s && r[j] != r[0] by {
            assert r[j] == SortedNames(s - {r[0]})[j - 1];
          }
        }
      }
    }
  }

  /** The first name goes out first, then the others in order. */
  lemma SortedNamesStep(s: set<string>)
    requires s != {}
    ensures SortedNames(s) == [SortedNames(s)[0]] + SortedNames(s - {SortedNames(s)[0]})
  {
  }

  /** Every name comes out exactly once. */
  lemma {:induction false} SortedNamesLength(s: set<string>)
    ensures |SortedNames(s)| == |s|
    decreases |s|
  {
    if s != {} {
      SortedNamesStep(s);
      SortedNamesLength(s - {SortedNames(s)[0]});
    }
  }

  /** The pids of `s` in the order a std::map<int, …> visits them. */
  ghost function SortedPids(s: set<int>): (r: seq<int>)
    ensures forall x :: x in s <==> x in r
    ensures s != {} ==> forall y :: y in s ==> r[0] <= y
    decreases |s|
  {
    if s == {} then []
    else
      LeastPidExists(s);
      var m :| m in s && forall y :: y in s ==> m <= y;
      var t := SortedPids(s - {m});
      [m] + t
  }

  /** The pids come out in strictly ascending order. */
  lemma {:induction false} SortedPidsAscending(s: set<int>)
    ensures forall i, j :: 0 <= i < j < |SortedPids(s)| ==> SortedPids(s)[i] < SortedPids(s)[j]
    decreases |s|
  {
    if s != {} {
      var r := SortedPids(s);
      SortedPidsStep(s);
      SortedPidsAscending(s - {r[0]});
      forall i, j | 0 <= i < j < |r|
        ensures r[i] < r[j]
      {
        if i > 0 {
          assert r[i] == SortedPids(s - {r[0]})[i - 1];
          assert r[j] == SortedPids(s - {r[0]})[j - 1];
        } else {
          assert r[j] in s && r[j] != r[0] by {
            assert r[j] == SortedPids(s - {r[0]})[j - 1];
          }
        }
      }
    }
  }

  /** The least pid goes out first, then the others in order. */
  lemma SortedPidsStep(s: set<int>)
    requires s != {}
    ensures SortedPids(s) == [SortedPids(s)[0]] + SortedPids(s - {SortedPids(s)[0]})
  {
  }

  /** Every pid comes out exactly once. */
  lemma {:induction false} SortedPidsLength(s: set<int>)
    ensures |SortedPids(s)| == |s|
    decreases |s|
  {
    if s != {} {
      SortedPidsStep(s);
      SortedPidsLength(s - {SortedPids(s)[0]});
    }
  }

  lemma {:induction false} LeastPidExists(s: set<int>)
    requires s != {}
    ensures exists m :: m in s && forall y :: y in s ==> m <= y
    decreases |s|
  {
    var x := Member(s);
    if s != {x} {
      var rest := s - {x};
      LeastPidExists(rest);
      var m :| m in rest && forall y :: y in rest ==> m <= y;
      var least := if m < x then m else x;
      forall y | y in s
        ensures least <= y
      {
        if y != x {
          assert y in rest;
        }
      }
    } else {
      assert forall y :: y in s ==> x <= y;
    }
  }

  ghost function Member(s: set<int>): (x: int)
    requires s != {}
    ensures x in s
  {
    assert exists x :: x in s by {
      if forall x :: x !in s {
        assert false;
      }
    }
    var x :| x in s; x
  }

  lemma Associative<T>(a: seq<T>, b: seq<T>, c: seq<T>)
    ensures a + (b + c) == (a + b) + c
  {
  }

  /** Walks the names of `s` the way a range-for over the map does. */
  method NameList(s: set<string>) returns (r: seq<string>)
    ensures r == SortedNames(s)
  {
    r := [];
    var rest := s;
    while rest != {}
      invariant rest <= s
      invariant SortedNames(s) == r + SortedNames(rest)
      decreases |rest|
    {
      LeastNameExists(rest);
      var m :| IsLeastName(m, rest);
      LeastNameUnique(m, SortedNames(rest)[0], rest);
      SortedNamesStep(rest);
      Associative(r, [m], SortedNames(rest - {m}));
      r := r + [m];
      rest := rest - {m};
    }
  }

  /** Walks the pids of `s` the way a range-for over the map does. */
  method PidList(s: set<int>) returns (r: seq<int>)
    ensures r == SortedPids(s)
  {
    r := [];
    var rest := s;
    while rest != {}
      invariant rest <= s
      invariant SortedPids(s) == r + SortedPids(rest)
      decreases |rest|
    {
      LeastPidExists(rest);
      var m :| m in rest && forall y :: y in rest ==> m <= y;
      assert SortedPids(rest)[0] == m;
      SortedPidsStep(rest);
      Associative(r, [m], SortedPids(rest - {m}));
      r := r + [m];
      rest := rest - {m};
    }
  }
}
