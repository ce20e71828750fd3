/**
 * Ranking records by salary, highest first. The roster sorts a copy of its
 * ordered view with an unstable library sort, so what it promises is only
 * that the result is SOME permutation of the records ordered by
 * non-increasing salary; which of several equally paid records comes first
 * is left open. `SortBySalaryDesc` is one such ranking, used in place of the
 * library routine.
 */
module Ranking {
  import opened Records

  /** No record is paid more than one listed before it. */
  predicate SortedBySalaryDesc(s: seq<Employee>)
  {
    forall i, j :: 0 <= i < j < |s| ==> s[i].salary >= s[j].salary
  }

  /** `p` holds the records of `s`, each as often as `s` does, ordered by salary, highest first. */
  ghost predicate IsRanking(p: seq<Employee>, s: seq<Employee>)
  {
    multiset(p) == multiset(s) && SortedBySalaryDesc(p)
  }

  /** `l` is what listing the top |l| places of some ranking of `s` shows. */
  ghost predicate IsRankingPrefix(l: seq<Employee>, s: seq<Employee>)
  {
    exists p :: IsRanking(p, s) && l <= p
  }

  /** Places `e` in front of the first record paid no more than it. */
  function InsertBySalary(e: Employee, s: seq<Employee>): (r: seq<Employee>)
    requires SortedBySalaryDesc(s)
    ensures |r| == |s| + 1
    ensures SortedBySalaryDesc(r)
    ensures multiset(r) == multiset(s) + multiset{e}
  {
    if s == [] then [e]
    else if e.salary >= s[0].salary then [e] + s
    else
      var rest := InsertBySalary(e, s[1..]);
      assert s == [s[0]] + s[1..];
      BelowHead(e, s, rest);
      [s[0]] + rest
  }

  /** Every record of `rest`, which holds `e` and the tail of `s`, is paid no more than `s[0]`. */
  lemma BelowHead(e: Employee, s: seq<Employee>, rest: seq<Employee>)
    requires s != [] && SortedBySalaryDesc(s) && e.salary < s[0].salary
    requires multiset(rest) == multiset(s[1..]) + multiset{e}
    ensures forall j :: 0 <= j < |rest| ==> rest[j].salary <= s[0].salary
  {
    forall j | 0 <= j < |rest| ensures rest[j].salary <= s[0].salary {
      var x := rest[j];
      assert x in multiset(rest);
      if x != e {
        assert x in multiset(s[1..]);
        assert x in s[1..];
        var k :| 0 <= k < |s[1..]| && s[1..][k] == x;
        assert s[k + 1] == x;
      }
    }
  }

  /** A ranking of `s`: insertion sort on salary, highest first. */
  function SortBySalaryDesc(s: seq<Employee>): (r: seq<Employee>)
    ensures |r| == |s|
    ensures multiset(r) == multiset(s)
    ensures SortedBySalaryDesc(r)
  {
    if s == [] then []
    else
      assert s == [s[0]] + s[1..];
      InsertBySalary(s[0], SortBySalaryDesc(s[1..]))
  }


  /**
   * What a top-N listing guarantees: it is itself ordered, it takes its
   * records from the roster, and every record it leaves out is paid no more
   * than any record it shows.
   */
  lemma RankingPrefixDominates(l: seq<Employee>, s: seq<Employee>)
    requires IsRankingPrefix(l, s)
    ensures SortedBySalaryDesc(l)
    ensures multiset(l) <= multiset(s)
    ensures forall i, x :: 0 <= i < |l| && x in multiset(s) - multiset(l) ==> x.salary <= l[i].salary
  {
    var p :| IsRanking(p, s) && l <= p;
    var rest := p[|l|..];
    SplitMultiset(p, l, rest);
    forall i, x | 0 <= i < |l| && x in multiset(s) - multiset(l)
      ensures x.salary <= l[i].salary
    {
      assert x in rest;
      var j :| 0 <= j < |rest| && rest[j] == x;
      assert p[|l| + j] == x;
      assert p[i] == l[i];
    }
  }

  /** Cutting `p` into `l` and `rest` splits its records between the two. */
  lemma SplitMultiset(p: seq<Employee>, l: seq<Employee>, rest: seq<Employee>)
    requires l <= p && rest == p[|l|..]
    ensures p == l + rest
    ensures multiset(l) <= multiset(p)
    ensures multiset(p) - multiset(l) == multiset(rest)
  {
    assert p == l + rest;
  }

  /**
   * The library sort is unstable, so two rankings of one roster may order
   * equally paid records differently; they still show the same salary at
   * every rank.
   */
  lemma {:induction false} RankingsAgreeOnSalaries(p: seq<Employee>, q: seq<Employee>, s: seq<Employee>)
    requires IsRanking(p, s) && IsRanking(q, s)
    ensures |p| == |q|
    ensures forall i :: 0 <= i < |p| ==> p[i].salary == q[i].salary
  {
    SortedSameSalaries(p, q);
  }

  lemma {:induction false} SortedSameSalaries(p: seq<Employee>, q: seq<Employee>)
    requires multiset(p) == multiset(q)
    requires SortedBySalaryDesc(p) && SortedBySalaryDesc(q)
    ensures |p| == |q|
    ensures forall i :: 0 <= i < |p| ==> p[i].salary == q[i].salary
    decreases |p|
  {
    assert |p| == |multiset(p)| == |multiset(q)| == |q|;
    if p != [] {
      assert p[0] in multiset(q);
      var j :| 0 <= j < |q| && q[j] == p[0];
      assert q[0] in multiset(p);
      var k :| 0 <= k < |p| && p[k] == q[0];
      assert q[j].salary == q[0].salary by {
        assert p[0].salary >= p[k].salary;
        assert q[0].salary >= q[j].salary;
      }
      var q' := MoveToFront(q, j);
      MoveToFrontRanks(q, j);
      var pt, qt := p[1..], q'[1..];
      SameHeadSameTails(p, q');
      SortedTail(p);
      SortedTail(q');
      SortedSameSalaries(pt, qt);
      forall i | 0 <= i < |p| ensures p[i].salary == q[i].salary {
        if i > 0 {
          assert p[i] == pt[i - 1];
          assert q'[i] == qt[i - 1];
        }
      }
    }
  }

  lemma SameHeadSameTails(p: seq<Employee>, q: seq<Employee>)
    requires p != [] && q != [] && p[0] == q[0] && multiset(p) == multiset(q)
    ensures multiset(p[1..]) == multiset(q[1..])
  {
    assert p == [p[0]] + p[1..];
    assert q == [q[0]] + q[1..];
    assert multiset(p) == multiset{p[0]} + multiset(p[1..]);
    assert multiset(q) == multiset{p[0]} + multiset(q[1..]);
    forall y ensures multiset(p[1..])[y] == multiset(q[1..])[y] {
      assert multiset(p)[y] == multiset(q)[y];
    }
  }

  lemma SortedTail(p: seq<Employee>)
    requires p != [] && SortedBySalaryDesc(p)
    ensures SortedBySalaryDesc(p[1..])
  {
  }

  /** `q` with its `j`-th record taken out and put in front. */
  function MoveToFront(q: seq<Employee>, j: nat): (r: seq<Employee>)
    requires j < |q|
    ensures |r| == |q| && r[0] == q[j]
    ensures forall i :: 0 < i <= j ==> r[i] == q[i - 1]
    ensures forall i :: j < i < |q| ==> r[i] == q[i]
  {
    [q[j]] + q[..j] + q[j + 1..]
  }

  /**
   * Moving to the front a record paid as much as the first one keeps the
   * records, the order and the salary at every rank.
   */
  lemma MoveToFrontRanks(q: seq<Employee>, j: nat)
    requires j < |q| && SortedBySalaryDesc(q) && q[j].salary == q[0].salary
    ensures multiset(MoveToFront(q, j)) == multiset(q)
    ensures SortedBySalaryDesc(MoveToFront(q, j))
    ensures forall i :: 0 <= i < |q| ==> MoveToFront(q, j)[i].salary == q[i].salary
  {
    var r := MoveToFront(q, j);
    assert q == q[..j] + [q[j]] + q[j + 1..];
    assert multiset(r) == multiset(q);
    forall i | 0 <= i < |q| ensures r[i].salary == q[i].salary {
      if 0 < i <= j {
        assert q[0].salary >= q[i - 1].salary >= q[i].salary >= q[j].salary;
      }
    }
  }
}
