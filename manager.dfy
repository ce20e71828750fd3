/**
 * The roster object: an insertion-ordered sequence of records and a map from
 * id to record, which every operation updates in place. Console output is
 * replaced by what each operation reports to its caller; thrown exceptions
 * become `Failed` / `Failure` values.
 *
 * Two behaviours of the original are kept as they are: adding an id that is
 * already present appends a second record to the sequence while the map keeps
 * one entry (the newest), and a salary update changes only the map's copy.
 * The invariant `Valid` is therefore the strongest agreement the two views
 * keep: the same ids, and for each id the map entry carries the name of the
 * newest record of that id in the sequence; only salaries may differ.
 */
module Roster {
  import opened Records
  import opened Ranking

  function Min(a: int, b: int): int
  {
    if a <= b then a else b
  }

  /** The map entry for `k` has id `k`, a valid salary and the name of the newest record of id `k` in `s`. */
  ghost predicate AgreesWithNewest(s: seq<Employee>, m: map<int, Employee>, k: int)
    requires k in m
  {
    var newest := LastWithId(s, k);
    && newest.Some?
    && m[k].id == k
    && m[k].name == newest.value.name
    && m[k].salary >= 0.0
  }

  /**
   * What the ordered view `s` and the keyed view `m` keep in common: the same
   * ids, only valid records, and for each id the map entry agrees with the
   * newest record of that id in everything but its salary.
   */
  ghost predicate ViewsAgree(s: seq<Employee>, m: map<int, Employee>)
  {
    && Ids(s) == m.Keys
    && (forall e :: e in s ==> IsValidRecord(e))
    && (forall k :: k in m ==> AgreesWithNewest(s, m, k))
  }

  /** Appending a valid record and inserting or overwriting its map entry keeps the views in agreement. */
  lemma AddKeepsAgreement(s: seq<Employee>, m: map<int, Employee>, e: Employee)
    requires ViewsAgree(s, m) && IsValidRecord(e)
    ensures ViewsAgree(s + [e], m[e.id := e])
  {
    var s', m' := s + [e], m[e.id := e];
    assert s'[..|s'| - 1] == s;
    forall k | k in m' ensures AgreesWithNewest(s', m', k) {
      if k != e.id {
        assert LastWithId(s', k) == LastWithId(s, k);
      }
    }
  }

  /** Setting a non-negative salary on one map entry keeps the views in agreement. */
  lemma UpdateKeepsAgreement(s: seq<Employee>, m: map<int, Employee>, id: int, salary: real)
    requires ViewsAgree(s, m) && id in m && salary >= 0.0
    ensures ViewsAgree(s, m[id := m[id].(salary := salary)])
  {
    var m' := m[id := m[id].(salary := salary)];
    forall k | k in m' ensures AgreesWithNewest(s, m', k) {
      assert AgreesWithNewest(s, m, k);
    }
  }

  /** Filtering an id out of the sequence and erasing its key keeps the views in agreement. */
  lemma RemoveKeepsAgreement(s: seq<Employee>, m: map<int, Employee>, id: int)
    requires ViewsAgree(s, m)
    ensures ViewsAgree(Without(s, id), m - {id})
  {
    var s', m' := Without(s, id), m - {id};
    WithoutIds(s, id);
    WithoutKeepsOthers(s, id);
    forall k | k in m' ensures AgreesWithNewest(s', m', k) {
      WithoutKeepsLatest(s, id, k);
      assert AgreesWithNewest(s, m, k);
    }
  }

  class EmployeeManager {
    var employees: seq<Employee>
    var employeeMap: map<int, Employee>

    ghost predicate Valid()
      reads this
    {
      ViewsAgree(employees, employeeMap)
    }

    constructor ()
      ensures Valid()
      ensures employees == [] && employeeMap == map[]
    {
      employees := [];
      employeeMap := map[];
    }

    /**
     * Rejects a non-positive id or a negative salary before touching either
     * view; otherwise appends the record and inserts or overwrites its map entry.
     */
    method AddEmployee(name: string, id: int, salary: real) returns (status: Status)
      requires Valid()
      modifies this
      ensures Valid()
      ensures status == if id <= 0 || salary < 0.0 then Failed(InvalidArgument) else Done
      ensures status.Failed? ==> employees == old(employees) && employeeMap == old(employeeMap)
      ensures status == Done ==>
        && employees == old(employees) + [Employee(name, id, salary)]
        && employeeMap == old(employeeMap)[id := Employee(name, id, salary)]
    {
      if id <= 0 || salary < 0.0 {
        return Failed(InvalidArgument);
      }
      var emp := Employee(name, id, salary);
      AddKeepsAgreement(employees, employeeMap, emp);
      employees := employees + [emp];
      employeeMap := employeeMap[id := emp];
      status := Done;
    }

    /** Lists the ordered view in insertion order; `None` stands for the "nothing to display" notice. */
    method PrintAllEmployees() returns (listing: Option<seq<Employee>>)
      ensures listing.None? <==> employees == []
      ensures listing.Some? ==> listing.value == employees
    {
      if employees == [] {
        return None;
      }
      listing := Some(employees);
    }

    /**
     * An id absent from the map is reported as not found (whatever the salary);
     * a negative salary is then rejected; otherwise only the map entry's salary
     * changes. The ordered view is never touched.
     */
    method UpdateSalary(id: int, newSalary: real) returns (status: Status)
      requires Valid()
      modifies this
      ensures Valid()
      ensures status == if id !in old(employeeMap) then NotFound
                        else if newSalary < 0.0 then Failed(InvalidArgument)
                        else Done
      ensures employees == old(employees)
      ensures status != Done ==> employeeMap == old(employeeMap)
      ensures status == Done ==>
        employeeMap == old(employeeMap)[id := old(employeeMap)[id].(salary := newSalary)]
    {
      if id !in employeeMap {
        return NotFound;
      }
      if newSalary < 0.0 {
        return Failed(InvalidArgument);
      }
      UpdateKeepsAgreement(employees, employeeMap, id, newSalary);
      employeeMap := employeeMap[id := employeeMap[id].(salary := newSalary)];
      status := Done;
    }

    /** The mean salary over the ordered view; an empty roster is an error. */
    method CalculateAverageSalary() returns (average: Result<real>)
      ensures employees == [] ==> average == Failure(RuntimeError)
      ensures employees != [] ==> average == Success(Mean(employees))
    {
      if employees == [] {
        return Failure(RuntimeError);
      }
      var total := 0.0;
      var i := 0;
      while i < |employees|
        invariant 0 <= i <= |employees|
        invariant total == TotalSalary(employees[..i])
      {
        assert employees[..i + 1][..i] == employees[..i];
        total := total + employees[i].salary;
        i := i + 1;
      }
      assert employees[..i] == employees;
      average := Success(total / (|employees| as real));
    }

    /**
     * Drops every record of id `id` from the ordered view, keeping the others
     * in order, and erases the map key; reports not found when no record matched.
     */
    method RemoveEmployee(id: int) returns (status: Status)
      requires Valid()
      modifies this
      ensures Valid()
      ensures status == if id in Ids(old(employees)) then Done else NotFound
      ensures employees == Without(old(employees), id)
      ensures employeeMap == if status == Done then old(employeeMap) - {id} else old(employeeMap)
      ensures status == NotFound ==> employees == old(employees)
      ensures id !in employeeMap
    {
      var kept := [];
      var i := 0;
      while i < |employees|
        invariant 0 <= i <= |employees|
        invariant kept == Without(employees[..i], id)
      {
        assert employees[..i + 1][..i] == employees[..i];
        if employees[i].id != id {
          kept := kept + [employees[i]];
        }
        i := i + 1;
      }
      assert employees[..i] == employees;
      WithoutUnchanged(employees, id);
      WithoutShrinks(employees, id);
      if |kept| < |employees| {
        RemoveKeepsAgreement(employees, employeeMap, id);
        employees := kept;
        employeeMap := employeeMap - {id};
        status := Done;
      } else {
        status := NotFound;
      }
    }

    /**
     * For `n <= 0`, only a notice (`None`). Otherwise the top `min(n, size)`
     * records of a copy of the ordered view ranked by salary, highest first;
     * among equal salaries the order is unspecified.
     */
    method DisplayTopSalaries(n: int) returns (listing: Option<seq<Employee>>)
      ensures listing.None? <==> n <= 0
      ensures listing.Some? ==>
        |listing.value| == Min(n, |employees|) && IsRankingPrefix(listing.value, employees)
    {
      if n <= 0 {
        return None;
      }
      var sorted := SortBySalaryDesc(employees);
      var top := [];
      var i := 0;
      while i < Min(n, |sorted|)
        invariant 0 <= i <= Min(n, |sorted|)
        invariant top == sorted[..i]
      {
        top := top + [sorted[i]];
        i := i + 1;
      }
      assert IsRanking(sorted, employees) && top <= sorted;
      listing := Some(top);
    }

    /** The map entry for `id`, exactly when `id` is a key; `None` is the "not found" notice. */
    method FindEmployeeById(id: int) returns (found: Option<Employee>)
      ensures found.Some? <==> id in employeeMap
      ensures found.Some? ==> found.value == employeeMap[id]
    {
      if id in employeeMap {
        return Some(employeeMap[id]);
      }
      return None;
    }
  }
}
