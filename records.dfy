/**
 * The employee record and the value-level vocabulary the roster is specified
 * with: the outcomes an operation reports, the set of ids in the ordered view,
 * the filter that removal applies, the most recent record of an id, and the
 * salary total and mean.
 */
module Records {

  /** One roster record: a name, an integer id and a salary (exact, not IEEE double). */
  datatype Employee = Employee(name: string, id: int, salary: real)

  /** The two exceptions the roster throws: `invalid_argument` and `runtime_error`. */
  datatype Error = InvalidArgument | RuntimeError

  /**
   * What a state-changing operation reports: it went through, the id was not
   * there (a printed notice, not an error), or it threw.
   */
  datatype Status = Done | NotFound | Failed(error: Error)

  datatype Option<T> = None | Some(value: T)

  datatype Result<T> = Success(value: T) | Failure(error: Error)

  /** The range check applied before a record is stored. */
  predicate IsValidRecord(e: Employee)
  {
    e.id > 0 && e.salary >= 0.0
  }

  /** The ids present in the ordered view. */
  function Ids(s: seq<Employee>): set<int>
  {
    set e | e in s :: e.id
  }

  /** `s` with every record of id `id` dropped, the survivors in their original order. */
  function Without(s: seq<Employee>, id: int): (r: seq<Employee>)
    ensures |r| <= |s|
  {
    if s == [] then []
    else Without(s[..|s| - 1], id) + (if s[|s| - 1].id == id then [] else [s[|s| - 1]])
  }

  /** The most recently appended record of `s` whose id is `id`, if any. */
  function LastWithId(s: seq<Employee>, id: int): (r: Option<Employee>)
    ensures r.Some? <==> id in Ids(s)
    ensures r.Some? ==> r.value in s && r.value.id == id
    ensures r.Some? ==>
      exists i :: 0 <= i < |s| && s[i] == r.value && forall j :: i < j < |s| ==> s[j].id != id
  {
    if s == [] then None
    else if s[|s| - 1].id == id then Some(s[|s| - 1])
    else
      var prefix := s[..|s| - 1];
      assert s == prefix + [s[|s| - 1]];
      var r := LastWithId(prefix, id);
      assert r.Some? ==> exists i :: 0 <= i < |s| && s[i] == r.value && forall j :: i < j < |s| ==> s[j].id != id by {
        if r.Some? {
          var i :| 0 <= i < |prefix| && prefix[i] == r.value && forall j :: i < j < |prefix| ==> prefix[j].id != id;
          assert s[i] == r.value;
        }
      }
      r
  }

  /** The sum of the salaries, accumulated front to back. */
  function TotalSalary(s: seq<Employee>): real
  {
    if s == [] then 0.0 else TotalSalary(s[..|s| - 1]) + s[|s| - 1].salary
  }

  /** The arithmetic mean of the salaries of a non-empty roster. */
  function Mean(s: seq<Employee>): real
    requires s != []
  {
    TotalSalary(s) / (|s| as real)
  }

  /** Removal keeps exactly the records of other ids, in order, and nothing else. */
  lemma {:induction false} WithoutKeepsOthers(s: seq<Employee>, id: int)
    ensures forall e :: e in Without(s, id) ==> e in s && e.id != id
    ensures forall e :: e in s && e.id != id ==> e in Without(s, id)
  {
    if s != [] {
      var prefix := s[..|s| - 1];
      WithoutKeepsOthers(prefix, id);
      assert s == prefix + [s[|s| - 1]];
    }
  }

  /** After removal the ids present are the old ones less `id`. */
  lemma {:induction false} WithoutIds(s: seq<Employee>, id: int)
    ensures Ids(Without(s, id)) == Ids(s) - {id}
  {
    WithoutKeepsOthers(s, id);
    var r := Without(s, id);
    forall k | k in Ids(s) - {id} ensures k in Ids(r) {
      var e :| e in s && e.id == k;
      assert e in r;
    }
  }

  /** Removal changes nothing exactly when no record carries the id. */
  lemma {:induction false} WithoutUnchanged(s: seq<Employee>, id: int)
    ensures Without(s, id) == s <==> id !in Ids(s)
  {
    if id in Ids(s) {
      WithoutIds(s, id);
    } else if s != [] {
      var prefix := s[..|s| - 1];
      assert s == prefix + [s[|s| - 1]];
      assert id !in Ids(prefix);
      WithoutUnchanged(prefix, id);
    }
  }

  /** Removal shortens the sequence exactly when some record carries the id. */
  lemma {:induction false} WithoutShrinks(s: seq<Employee>, id: int)
    ensures |Without(s, id)| < |s| <==> id in Ids(s)
  {
    if s != [] {
      var prefix := s[..|s| - 1];
      assert s == prefix + [s[|s| - 1]];
      WithoutShrinks(prefix, id);
    }
  }

  /** Removal distributes over concatenation: the relative order of survivors is kept. */
  lemma {:induction false} WithoutAppend(a: seq<Employee>, b: seq<Employee>, id: int)
    ensures Without(a + b, id) == Without(a, id) + Without(b, id)
  {
    if b == [] {
      assert a + b == a;
    } else {
      var prefix, last := b[..|b| - 1], b[|b| - 1];
      var tail := if last.id == id then [] else [last];
      var ab := a + b;
      assert ab[..|ab| - 1] == a + prefix && ab[|ab| - 1] == last;
      assert Without(ab, id) == Without(a + prefix, id) + tail;
      assert Without(b, id) == Without(prefix, id) + tail;
      WithoutAppend(a, prefix, id);
    }
  }

  /** Removing the same id twice is the same as removing it once. */
  lemma {:induction false} WithoutIdempotent(s: seq<Employee>, id: int)
    ensures Without(Without(s, id), id) == Without(s, id)
  {
    WithoutIds(s, id);
    WithoutUnchanged(Without(s, id), id);
  }

  /** Removing one id does not change which record is the latest for another id. */
  lemma {:induction false} WithoutKeepsLatest(s: seq<Employee>, id: int, k: int)
    requires k != id
    ensures LastWithId(Without(s, id), k) == LastWithId(s, k)
  {
    if s != [] {
      var prefix := s[..|s| - 1];
      var last := s[|s| - 1];
      WithoutKeepsLatest(prefix, id, k);
      if last.id == id {
        assert Without(s, id) == Without(prefix, id);
      } else {
        var w := Without(prefix, id) + [last];
        assert Without(s, id) == w;
        assert w[..|w| - 1] == Without(prefix, id);
      }
    }
  }

  /** If every salary lies in [lo, hi], the total over |s| records lies in [|s| * lo, |s| * hi]. */
  lemma {:induction false} TotalSalaryBounds(s: seq<Employee>, lo: real, hi: real)
    requires forall i :: 0 <= i < |s| ==> lo <= s[i].salary <= hi
    ensures (|s| as real) * lo <= TotalSalary(s)
    ensures TotalSalary(s) <= (|s| as real) * hi
  {
    if s != [] {
      var prefix := s[..|s| - 1];
      TotalSalaryBounds(prefix, lo, hi);
      var m := |prefix| as real;
      var x := s[|s| - 1].salary;
      assert |s| as real == m + 1.0;
      assert lo <= x <= hi;
      calc {
        (|s| as real) * lo;
      == { RealDistributes(m, lo); }
        m * lo + lo;
      <=
        TotalSalary(prefix) + x;
      ==
        TotalSalary(s);
      }
      calc {
        TotalSalary(s);
      ==
        TotalSalary(prefix) + x;
      <=
        m * hi + hi;
      == { RealDistributes(m, hi); }
        (|s| as real) * hi;
      }
    }
  }

  lemma RealDistributes(m: real, x: real)
    ensures (m + 1.0) * x == m * x + x
  {
  }

  /** The mean lies between the smallest and the largest salary. */
  lemma MeanBounds(s: seq<Employee>, lo: real, hi: real)
    requires s != []
    requires forall i :: 0 <= i < |s| ==> lo <= s[i].salary <= hi
    ensures lo <= Mean(s) <= hi
  {
    TotalSalaryBounds(s, lo, hi);
    var n := |s| as real;
    assert n > 0.0;
    assert lo <= TotalSalary(s) / n by {
      assert n * lo <= TotalSalary(s);
    }
    assert TotalSalary(s) / n <= hi by {
      assert TotalSalary(s) <= n * hi;
    }
  }
}
