# Employee roster (EmployeeManager) in Dafny

This project models `EmployeeManager` from `Static_analysis.cpp`. It is an in-memory
roster of employee records, each with a name, an integer id and a salary. The roster
holds the records in two containers side by side:

- `employees`, an insertion-ordered vector. It is modelled as the field `employees: seq<Employee>`.
- `employeeMap`, a hash map from id to record. It is modelled as the field `employeeMap: map<int, Employee>`.

`Roster.EmployeeManager` is a class with these two fields. Each operation of the original
is a method of that class. The methods that change the containers have `modifies this`.
The read-only (`const`) operations are methods without a `modifies` clause.

Files:

- `records.dfy` (module `Records`) holds the value vocabulary:
  - the `Employee` record and the outcome types;
  - the set of ids in the ordered view (`Ids`);
  - the order-preserving filter that removal applies (`Without`);
  - the newest record of an id (`LastWithId`);
  - the salary total and mean (`TotalSalary`, `Mean`);
  - the lemmas about these.
- `ranking.dfy` (module `Ranking`) says what "ranked by salary, highest first" means (`IsRanking`, `IsRankingPrefix`). It also gives one ranking function, used in place of the library sort.
- `manager.dfy` (module `Roster`) holds the class.

Two behaviours of the original are modelled as written, not corrected:

- Adding an id that is already present appends a second record to the vector. The map
  keeps one entry for that id, the newest.
- `updateSalary` changes only the map's copy of the record. The vector copy keeps the old salary.

Because of these, the object invariant `Valid()` is the strongest agreement the two views
actually keep:

- the ids in the vector are exactly the map's keys;
- every stored record has a positive id and a non-negative salary;
- for each key `k`, the map entry has id `k` and carries the name of the newest vector
  record with id `k`.

Salaries may differ between the two views. `Valid()` is the predicate `ViewsAgree` on the two
fields. Every mutating method keeps it, by way of one preservation lemma per operation.

Outcomes replace console output and exceptions:

- `Status` is `Done`, `NotFound` or `Failed(InvalidArgument)`.
- `Result<real>` is `Success(mean)` or `Failure(RuntimeError)`.
- `Option<...>` is `None` for the printed "not found" and "invalid number" notices.

The original's order of checks is kept. `updateSalary` on an absent id reports not found
even when the new salary is negative, because the lookup comes before the salary check.

## Model

| member | source | states |
|---|---|---|
| `Roster.EmployeeManager.constructor` | Static_analysis.cpp:19-23 | A new roster has an empty vector and an empty map and satisfies the two-view invariant. |
| `Roster.EmployeeManager.AddEmployee` | Static_analysis.cpp:25-32 | If `id <= 0` or `salary < 0`, it fails with InvalidArgument and neither container changes. Otherwise exactly one record `(name, id, salary)` is appended after the unchanged old vector, and `employeeMap` becomes the old map with `id` set to that record, so all other keys keep their entries. The invariant is kept, including for a duplicate id. |
| `Roster.EmployeeManager.PrintAllEmployees` | Static_analysis.cpp:34-42 | It reports the empty-roster notice exactly when the vector is empty. Otherwise it lists the vector's records in insertion order. |
| `Roster.EmployeeManager.UpdateSalary` | Static_analysis.cpp:44-54 | An id absent from the map gives NotFound, whatever the salary. A negative salary for a present id gives InvalidArgument. In both cases nothing changes. Otherwise only `employeeMap[id].salary` becomes the new salary. The vector and every other map entry are untouched, and the invariant is kept. |
| `Roster.EmployeeManager.CalculateAverageSalary` | Static_analysis.cpp:56-65 | An empty roster gives RuntimeError. Otherwise the result is the sum of the vector's salaries divided by its length. The loop's running total is proved equal to the total of the prefix it has visited. |
| `Roster.EmployeeManager.RemoveEmployee` | Static_analysis.cpp:67-78 | The vector becomes the old vector with every record of `id` filtered out, the survivors in their original order. The key `id` is erased, so afterwards `id` is not a key. The result is Done exactly when some record had that id; on NotFound both containers are unchanged. The invariant is kept. |
| `Roster.EmployeeManager.DisplayTopSalaries` | Static_analysis.cpp:80-92 | `n <= 0` gives only the notice. Otherwise the listing has length `min(n, size)` and is a prefix of some permutation of the vector sorted by non-increasing salary. The order among equal salaries is left open, and the vector is not modified. |
| `Roster.EmployeeManager.FindEmployeeById` | Static_analysis.cpp:94-101 | It reports a record exactly when `id` is a key of the map, and that record is the map's entry. Nothing is modified. |
| `Roster.AddKeepsAgreement` | Static_analysis.cpp:29-31 | Appending a valid record and inserting or overwriting its map entry keeps the two views in agreement: same ids, valid records, and each map entry carries the name of the newest record of its id. This holds for a duplicate id too. |
| `Roster.UpdateKeepsAgreement` | Static_analysis.cpp:49-52 | Setting a non-negative salary on an existing map entry changes no key and no name, so the views stay in agreement. |
| `Roster.RemoveKeepsAgreement` | Static_analysis.cpp:68-73 | Filtering an id out of the vector and erasing that key keeps the views in agreement. |
| `Records.Without` | Static_analysis.cpp:68-72 | Filtering out one id never lengthens the vector. |
| `Records.WithoutKeepsOthers` | Static_analysis.cpp:68-70 | After removal, every surviving record was in the old vector and has another id. Every old record with another id survives. |
| `Records.WithoutShrinks` | Static_analysis.cpp:68-71 | `remove_if` leaves a shorter range (`it != end()`) exactly when some record carries the id. |
| `Records.WithoutUnchanged` | Static_analysis.cpp:71-77 | Removal leaves the vector as it was exactly when no record carries the id. |
| `Records.WithoutIds` | Static_analysis.cpp:72-73 | The ids left in the vector are the old ids less `id`, matching the map key that is erased. |
| `Records.WithoutAppend` | Static_analysis.cpp:68-72 | Filtering distributes over concatenation, so the survivors keep their relative order. |
| `Records.WithoutIdempotent` | Static_analysis.cpp:67-73 | Removing the same id a second time changes nothing. |
| `Records.WithoutKeepsLatest` | Static_analysis.cpp:72-73 | Removing one id leaves the newest record of every other id unchanged. This is why the map entries that remain still agree with the vector. |
| `Records.LastWithId` | Static_analysis.cpp:30-31 | The newest record of an id exists exactly when the id occurs in the vector. It is a record of the vector with that id, and no later record carries the id. This is the record a repeated `employeeMap[id] = emp` leaves in the map. |
| `Records.TotalSalaryBounds` | Static_analysis.cpp:60-64 | If every salary lies in `[lo, hi]`, the total of `k` salaries lies in `[k*lo, k*hi]`. |
| `Records.MeanBounds` | Static_analysis.cpp:56-65 | The average of a non-empty roster lies between any lower and any upper bound of its salaries. |
| `Ranking.InsertBySalary` | Static_analysis.cpp:86-88 | Inserting into a list sorted by non-increasing salary gives a sorted list with one more record and the same records plus the new one. |
| `Ranking.SortBySalaryDesc` | Static_analysis.cpp:85-88 | The sorted copy is a permutation of the vector, of the same length, ordered by non-increasing salary. |
| `Ranking.RankingPrefixDominates` | Static_analysis.cpp:85-91 | A top-N listing is itself sorted and takes its records from the roster. Every record it leaves out is paid no more than any record it shows. |
| `Ranking.RankingsAgreeOnSalaries` | Static_analysis.cpp:86-88 | Two rankings of one roster may order equally paid records differently, but they have the same length and the same salary at every rank. |

## Left out

- Console output: the message texts and the number formatting of every method. The outcome of each method is returned instead: found or not found, the notices, and the listed records.
- The demonstration driver `main` (Static_analysis.cpp:104-137) and its top-level `catch`. It is a fixed call sequence with printing.
- IEEE `double` salaries and the floating-point accumulation of the average. Salaries are exact `real` numbers, so `CalculateAverageSalary` returns the exact mean.
- C++ exceptions. `invalid_argument` and `runtime_error` become the values `Failed(InvalidArgument)` and `Failure(RuntimeError)`. Since every check comes before any mutation, no partial update can occur.
- The internals of `std::sort`. `SortBySalaryDesc` (an insertion sort) stands in for it. `DisplayTopSalaries` promises only what `std::sort` promises: a prefix of some sorted permutation. The sort is a function on a copied `seq`, not an in-place sort of a vector.
- The hashing, bucket layout and iteration order of `unordered_map`. The map is a finite Dafny `map`.
- Integer width. `id` and `n` are C++ `int`. The model uses unbounded `int`, and since the code does no arithmetic on them, no wrap-around can arise.
- `employeeMap[id]` needs a default-constructible `Employee`, which the class does not declare (Static_analysis.cpp:16). The model gives `employeeMap[id] = emp` its intended insert-or-overwrite meaning, and `employeeMap[id].salary = s` its intended in-place field update.
- The order among equally paid records in a top-N listing. `std::sort` is not stable, so that order is unspecified; `RankingsAgreeOnSalaries` states what is still determined.
- Mutating methods require `Valid()`, the object invariant that the constructor establishes and that every mutating method keeps. The read-only methods require nothing.
