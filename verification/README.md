# Employee records core, modelled in Dafny

This project models the in-memory employee-record core of a small JavaFX
employee-management application:

- the `Employee` record, with its constructor and setter validation and its
  natural order (years of experience, ascending);
- the comparators that order employees by salary, rating, department, name
  and two compound keys;
- `EmployeeDB`, a store keyed by employee id, with add, remove, lookup, count,
  listing, sorted listing and the string-keyed field update;
- `EmployeeSearchEngine`, the read-only query layer: filters, sorted views,
  per-department counts, the average salary, the top performer and the
  iterator;
- `SalaryManager`: three bulk raises, the "top N" selection and the salary
  aggregates;
- `EmployeeDisplay`: the department, salary-band and rating-band reports,
  modelled as structured data (captions, counts and member lists), not
  formatted text.

The store is a sequence of records with distinct ids. Its order stands in
for the hash map's iteration order: insertion order, kept by removal and by
in-place updates. Every operation is a pure function that returns its
outcome and, if it mutates, the new store. Java exceptions become
`Results.Result` failures that carry an `Error` value. Salaries and ratings
are exact reals. Strings compare as Java compares them: by their UTF-16 code
units, so a character above U+FFFF, stored as a surrogate pair, sorts before
U+FFFF.

Modules, one per file:

- `Results`, `Text` (ASCII case folding, trim, `contains`, UTF-16 code units), `Seqs`
  (filter, sum, mean);
- `Entity`, `Comparators`, `Sorting` (a stable insertion sort standing in
  for `List.sort`);
- `EmployeeDB` and `UpdateLaws`;
- `Grouping` (departments, members, partition sums);
- `SearchEngine`, `SalaryManager`, `Reports`;
- `Scenarios`, the JUnit test's fixture and assertions restated as lemmas
  about the model.

## Model

| member | source | states |
|---|---|---|
| Entity.NewEmployee | src/main/java/com/ibra/employeeapplication/backend/entity/Employee.java:20-56 | The constructor as written. It succeeds exactly when the id is non-null, the name and the department are non-blank after trimming, and the salary is non-negative. Each failure carries the exception of the first failing check in source order. A success stores every argument unchanged, whatever the rating and years. |
| Entity.NewEmployeeAcceptsOutOfRange | src/main/java/com/ibra/employeeapplication/backend/entity/Employee.java:41-47 | The as-written constructor accepts rating 7.5 with years -3 and stores the rating 7.5. |
| Entity.NewEmployeeIntended | src/main/java/com/ibra/employeeapplication/backend/entity/Employee.java:41-47 | The corrected constructor succeeds exactly when the as-written one does and also 0 ≤ rating ≤ 5 and years ≥ 0. When it succeeds, it builds the same record. |
| Entity.SetName | src/main/java/com/ibra/employeeapplication/backend/entity/Employee.java:71-78 | Succeeds iff the new name is not blank, with IllegalArgument otherwise. On success it changes only the name and keeps the record well-formed. |
| Entity.SetDepartment | src/main/java/com/ibra/employeeapplication/backend/entity/Employee.java:84-89 | Succeeds iff the new department is not blank, with InvalidDepartment otherwise. On success it changes only the department. |
| Entity.SetSalary | src/main/java/com/ibra/employeeapplication/backend/entity/Employee.java:95-102 | Succeeds iff the salary is ≥ 0, with InvalidSalary otherwise. On success it changes only the salary. |
| Entity.SetRating | src/main/java/com/ibra/employeeapplication/backend/entity/Employee.java:108-110 | Unconditional. The rating afterwards is exactly the value set; no other field changes. |
| Entity.SetYears | src/main/java/com/ibra/employeeapplication/backend/entity/Employee.java:116-118 | Unconditional, with no negativity check. Only the years field changes. |
| Entity.SetActive | src/main/java/com/ibra/employeeapplication/backend/entity/Employee.java:124-126 | Unconditional. Only the active flag changes. |
| Comparators.CompareTo | src/main/java/com/ibra/employeeapplication/backend/entity/Employee.java:128-131 | The natural order has the sign of years(a) − years(b): negative, zero or positive exactly as a has fewer, equal or more years. |
| Comparators.CompareToIsComparator | src/main/java/com/ibra/employeeapplication/backend/entity/Employee.java:128-131 | The natural order is antisymmetric in sign and transitive, so it is a valid sort order. |
| Comparators.SalaryDescending | src/main/java/com/ibra/employeeapplication/backend/service/EmployeeSalaryComparator.java:12-15 | Negative iff a earns more than b, zero iff the salaries are equal: highest salary first. |
| Comparators.SalaryDescendingIsComparator | src/main/java/com/ibra/employeeapplication/backend/service/EmployeeSalaryComparator.java:10-16 | The salary order is antisymmetric and transitive. |
| Comparators.DepartmentAscending | src/main/java/com/ibra/employeeapplication/backend/service/EmployeeSalaryComparator.java:22-27 | Negative iff a's department is lexicographically smaller in UTF-16 code units, zero iff the departments are equal. |
| Comparators.DepartmentAscendingIsComparator | src/main/java/com/ibra/employeeapplication/backend/service/EmployeeSalaryComparator.java:22-27 | The department order is antisymmetric and transitive. |
| Comparators.NameAscending | src/main/java/com/ibra/employeeapplication/backend/service/EmployeeSalaryComparator.java:32-37 | Negative iff a's name is lexicographically smaller in UTF-16 code units, zero iff the names are equal. |
| Comparators.NameAscendingIsComparator | src/main/java/com/ibra/employeeapplication/backend/service/EmployeeSalaryComparator.java:32-37 | The name order is antisymmetric and transitive. |
| Comparators.CompareStringsIsLexicographic | src/main/java/com/ibra/employeeapplication/backend/service/EmployeeSalaryComparator.java:25-26 | String.compareTo is negative exactly when the first string's UTF-16 code units are a proper prefix of the second's, or are smaller at the first differing unit. |
| Comparators.CompareStrings | src/main/java/com/ibra/employeeapplication/backend/service/EmployeeSalaryComparator.java:25 | String.compareTo on the department strings is zero exactly when the strings are equal. |
| Comparators.CompareUnitsIsLexicographic | src/main/java/com/ibra/employeeapplication/backend/service/EmployeeSalaryComparator.java:25 | Comparing code-unit sequences is negative exactly when the first is lexicographically smaller. |
| Comparators.SupplementaryBeforeBmpEnd | src/main/java/com/ibra/employeeapplication/backend/service/EmployeeSalaryComparator.java:25 | U+1F600, stored as two code units, compares below U+FFFF, as String.compareTo orders them. |
| Text.Utf16Injective | src/main/java/com/ibra/employeeapplication/backend/service/EmployeeSalaryComparator.java:25 | Different strings have different UTF-16 encodings, so comparing encodings decides string equality. |
| Comparators.CompareStringsAntisymmetric | src/main/java/com/ibra/employeeapplication/backend/service/EmployeeSalaryComparator.java:25-26 | Swapping the arguments of String.compareTo flips the sign of the result. |
| Comparators.CompareStringsTransitive | src/main/java/com/ibra/employeeapplication/backend/service/EmployeeSalaryComparator.java:25-26 | String.compareTo's "at most" relation is transitive. |
| Comparators.DepartmentThenSalary | src/main/java/com/ibra/employeeapplication/backend/service/EmployeeSalaryComparator.java:47-50 | a precedes b iff its department is lexicographically smaller, or the departments are equal and a earns more. Zero iff both keys are equal. |
| Comparators.DepartmentThenSalaryIsComparator | src/main/java/com/ibra/employeeapplication/backend/service/EmployeeSalaryComparator.java:47-50 | The compound department-then-salary order is a valid sort order. |
| Comparators.PerformanceThenExperience | src/main/java/com/ibra/employeeapplication/backend/service/EmployeeSalaryComparator.java:55-59 | a precedes b iff its rating is higher, or the ratings are equal and it has more years. Zero iff both keys are equal. |
| Comparators.PerformanceThenExperienceIsComparator | src/main/java/com/ibra/employeeapplication/backend/service/EmployeeSalaryComparator.java:55-59 | The compound rating-then-years order is a valid sort order. |
| Comparators.ThenComparingIsComparator | src/main/java/com/ibra/employeeapplication/backend/service/EmployeeSalaryComparator.java:47-59 | Chaining two valid comparators with thenComparing gives a valid comparator. |
| Comparators.PerformanceDescending | src/main/java/com/ibra/employeeapplication/backend/service/EmployeePerformanceComparator.java:10-13 | Negative iff a's rating is higher, zero iff the ratings are equal. It reads nothing but the two ratings. |
| Comparators.PerformanceDescendingIsComparator | src/main/java/com/ibra/employeeapplication/backend/service/EmployeePerformanceComparator.java:10-13 | The performance order is antisymmetric and transitive, so it is usable for sorting. |
| Comparators.YearsDescending | src/main/java/com/ibra/employeeapplication/backend/service/EmployeeSalaryComparator.java:57-58 | The reversed years key used as the tie-breaker: negative iff a has more years. |
| Sorting.Sort | src/main/java/com/ibra/employeeapplication/backend/service/EmployeeSearchEngine.java:111-115 | List.sort under a valid comparator gives a permutation of its input that is ordered by the comparator. |
| Sorting.SortIsStable | src/main/java/com/ibra/employeeapplication/backend/service/EmployeeSearchEngine.java:111-115 | Sorting is stable: the employees tied with any given one keep their input order. |
| EmployeeDB.Empty | src/main/java/com/ibra/employeeapplication/backend/service/EmployeeDB.java:15-17 | A new database holds no id, has count 0, finds nothing, and accepts any well-formed employee. |
| EmployeeDB.AddEmployee | src/main/java/com/ibra/employeeapplication/backend/service/EmployeeDB.java:25-34 | Succeeds iff the id is new. On success the record is appended at the end of the listing, the count grows by one and lookup finds it. On failure the store is unchanged. Lookups of other ids are unaffected either way. |
| EmployeeDB.RemoveEmployee | src/main/java/com/ibra/employeeapplication/backend/service/EmployeeDB.java:41-50 | Succeeds iff the id is stored. On success the count drops by one and the id is no longer found. On failure the store is unchanged. Other ids are unaffected. |
| EmployeeDB.Without | src/main/java/com/ibra/employeeapplication/backend/service/EmployeeDB.java:41-50 | Removing an id keeps exactly the other records, and exactly one fewer when the id was present. |
| EmployeeDB.GetEmployeeById | src/main/java/com/ibra/employeeapplication/backend/service/EmployeeDB.java:170-172 | Finds a record iff the id is stored, and the record found carries that id. |
| EmployeeDB.Find | src/main/java/com/ibra/employeeapplication/backend/service/EmployeeDB.java:170-172 | Lookup over the rows is None exactly for ids that are absent. |
| EmployeeDB.FindUnique | src/main/java/com/ibra/employeeapplication/backend/service/EmployeeDB.java:170-172 | In a store with distinct ids, looking up a stored record's id returns that very record. |
| EmployeeDB.GetEmployeeCount | src/main/java/com/ibra/employeeapplication/backend/service/EmployeeDB.java:178-180 | The count is the number of distinct stored ids. |
| EmployeeDB.IdSetSize | src/main/java/com/ibra/employeeapplication/backend/service/EmployeeDB.java:178-180 | With distinct ids, the number of ids equals the number of records. |
| EmployeeDB.GetAllEmployees | src/main/java/com/ibra/employeeapplication/backend/service/EmployeeDB.java:145-153 | The listing is empty for an empty store. It holds each stored record exactly once, its length is the count, and it contains e iff looking up e's id yields e. |
| EmployeeDB.GetAllEmployeesSorted | src/main/java/com/ibra/employeeapplication/backend/service/EmployeeDB.java:159-163 | A permutation of the listing, non-decreasing in years. |
| EmployeeDB.GetAllEmployeesSortedIsStable | src/main/java/com/ibra/employeeapplication/backend/service/EmployeeDB.java:159-163 | Employees with equal years keep their listing order. |
| EmployeeDB.DoubleToInt | src/main/java/com/ibra/employeeapplication/backend/service/EmployeeDB.java:109-117 | Java's (int) cast of a double truncates toward zero and saturates at the int range. |
| EmployeeDB.FieldNamed | src/main/java/com/ibra/employeeapplication/backend/service/EmployeeDB.java:68-129 | A field name selects a field exactly when its lower-cased form is one of the six `case` labels, and then the field whose label it is. |
| EmployeeDB.DecodeUpdate | src/main/java/com/ibra/employeeapplication/backend/service/EmployeeDB.java:68-129 | A decoded update always targets the field its name selects, compared case-insensitively. |
| EmployeeDB.ApplyUpdate | src/main/java/com/ibra/employeeapplication/backend/service/EmployeeDB.java:69-126 | A successful setter call changes only its target field and keeps the record well-formed. |
| EmployeeDB.UpdatedRecord | src/main/java/com/ibra/employeeapplication/backend/service/EmployeeDB.java:68-133 | An accepted update names a known field, changes only that field and keeps the record well-formed. |
| EmployeeDB.Replace | src/main/java/com/ibra/employeeapplication/backend/service/EmployeeDB.java:130-133 | Replacing a record changes exactly the rows with that id. |
| EmployeeDB.ReplaceKeepsKeys | src/main/java/com/ibra/employeeapplication/backend/service/EmployeeDB.java:130-133 | Replacing a record keeps the id set and distinctness. The id now finds the new record; other ids find what they found before. |
| EmployeeDB.UpdateEmployeeDetails | src/main/java/com/ibra/employeeapplication/backend/service/EmployeeDB.java:59-139 | Fails with the store unchanged for an absent id, an unknown field name or a rejected value. Succeeds iff the record exists and the update is accepted. On success the record becomes the updated one and every other id is unaffected. |
| UpdateLaws.UpdateIgnoresCase | src/main/java/com/ibra/employeeapplication/backend/service/EmployeeDB.java:68 | Field names that are equal ignoring case give identical updates. |
| UpdateLaws.UpdatedRecordIgnoresCase | src/main/java/com/ibra/employeeapplication/backend/service/EmployeeDB.java:68 | The per-record update depends on the field name only up to case. |
| UpdateLaws.UpdateRejectsOtherTypes | src/main/java/com/ibra/employeeapplication/backend/service/EmployeeDB.java:69-129 | A value of a type that no field accepts always fails and changes nothing. |
| UpdateLaws.FieldNames | src/main/java/com/ibra/employeeapplication/backend/service/EmployeeDB.java:68-129 | Exactly the six lower-cased names are recognised, each selecting its own field. |
| UpdateLaws.UpdateName | src/main/java/com/ibra/employeeapplication/backend/service/EmployeeDB.java:69-75 | A name update succeeds iff the value is a non-blank String, and then sets exactly that name. |
| UpdateLaws.UpdateDepartment | src/main/java/com/ibra/employeeapplication/backend/service/EmployeeDB.java:76-82 | A department update succeeds iff the value is a non-blank String, and then sets exactly that department. |
| UpdateLaws.UpdateSalary | src/main/java/com/ibra/employeeapplication/backend/service/EmployeeDB.java:83-91 | A salary update accepts a non-negative Double or a non-negative Integer widened to double, and nothing else. |
| UpdateLaws.UpdateRating | src/main/java/com/ibra/employeeapplication/backend/service/EmployeeDB.java:92-108 | A rating update accepts a Double or Integer within [0, 5], widened, and nothing else. |
| UpdateLaws.UpdateYears | src/main/java/com/ibra/employeeapplication/backend/service/EmployeeDB.java:109-117 | A years update accepts any Integer, or a Double truncated by the int cast, with no negativity check. |
| UpdateLaws.UpdateActive | src/main/java/com/ibra/employeeapplication/backend/service/EmployeeDB.java:118-126 | An active update accepts a Boolean, or a String parsed as true exactly for "true" ignoring case. |
| SearchEngine.FindByDepartment | src/main/java/com/ibra/employeeapplication/backend/service/EmployeeSearchEngine.java:21-25 | Exactly the stored employees whose department equals the argument ignoring case, in listing order. |
| SearchEngine.FindByName | src/main/java/com/ibra/employeeapplication/backend/service/EmployeeSearchEngine.java:27-31 | Exactly the employees whose lower-cased name contains the lower-cased term, in listing order. |
| SearchEngine.EmptyTermMatchesAll | src/main/java/com/ibra/employeeapplication/backend/service/EmployeeSearchEngine.java:27-31 | Searching for the empty name returns the whole listing. |
| SearchEngine.NameSearchIgnoresCase | src/main/java/com/ibra/employeeapplication/backend/service/EmployeeSearchEngine.java:27-31 | Terms that are equal ignoring case find the same employees. |
| SearchEngine.FindByMinimumRating | src/main/java/com/ibra/employeeapplication/backend/service/EmployeeSearchEngine.java:33-37 | Exactly the employees rated at or above the minimum, in listing order. |
| SearchEngine.FindBySalaryRange | src/main/java/com/ibra/employeeapplication/backend/service/EmployeeSearchEngine.java:39-43 | Exactly the employees with min ≤ salary ≤ max, both ends inclusive, in listing order. |
| SearchEngine.SalaryRangeInverted | src/main/java/com/ibra/employeeapplication/backend/service/EmployeeSearchEngine.java:39-43 | An inverted range (min > max) finds nobody. |
| SearchEngine.FindActiveEmployees | src/main/java/com/ibra/employeeapplication/backend/service/EmployeeSearchEngine.java:45-49 | Exactly the active employees, in listing order. |
| SearchEngine.AllEmployeesByExperience | src/main/java/com/ibra/employeeapplication/backend/service/EmployeeSearchEngine.java:58-62 | A permutation of the listing in ascending years, so its head has the fewest years of anyone: the opposite of the documented "most experienced first". |
| SearchEngine.AllEmployeesBySalary | src/main/java/com/ibra/employeeapplication/backend/service/EmployeeSearchEngine.java:69-73 | A permutation of the listing in non-increasing salary. |
| SearchEngine.AllEmployeesByPerformance | src/main/java/com/ibra/employeeapplication/backend/service/EmployeeSearchEngine.java:80-84 | A permutation of the listing in non-increasing rating. |
| SearchEngine.AllEmployeesByDepartmentAndSalary | src/main/java/com/ibra/employeeapplication/backend/service/EmployeeSearchEngine.java:90-94 | A permutation of the listing with departments lexicographically non-decreasing and, within a department, salaries non-increasing. |
| SearchEngine.DepartmentThenSalaryOrder | src/main/java/com/ibra/employeeapplication/backend/service/EmployeeSearchEngine.java:90-94 | Being sorted by the compound comparator holds if and only if, for every pair of positions, the departments do not go down and, within a department, the salaries do not go up. |
| SearchEngine.AllEmployeesByPerformanceAndExperience | src/main/java/com/ibra/employeeapplication/backend/service/EmployeeSearchEngine.java:100-104 | A permutation of the listing in non-increasing rating and, among equal ratings, non-increasing years. |
| SearchEngine.SortEmployees | src/main/java/com/ibra/employeeapplication/backend/service/EmployeeSearchEngine.java:111-115 | For any valid comparator: a permutation of the listing, ordered by it for every pair of positions. |
| SearchEngine.SortEmployeesIsStable | src/main/java/com/ibra/employeeapplication/backend/service/EmployeeSearchEngine.java:111-115 | Employees the comparator ties keep their listing order. |
| SearchEngine.DepartmentCounts | src/main/java/com/ibra/employeeapplication/backend/service/EmployeeSearchEngine.java:118-121 | The keys are exactly the department strings present, compared case-sensitively. Each value is the number of employees in that department. |
| SearchEngine.DepartmentCountsSum | src/main/java/com/ibra/employeeapplication/backend/service/EmployeeSearchEngine.java:118-121 | Every count is at least 1, and the counts sum to the number of employees. |
| SearchEngine.AverageSalary | src/main/java/com/ibra/employeeapplication/backend/service/EmployeeSearchEngine.java:123-128 | 0 for an empty store; otherwise the average times the count equals the salary total. |
| SearchEngine.AverageSalaryBounds | src/main/java/com/ibra/employeeapplication/backend/service/EmployeeSearchEngine.java:123-128 | The average lies between any lower and upper bound of the salaries, and it is non-negative. |
| SearchEngine.FindTopPerformer | src/main/java/com/ibra/employeeapplication/backend/service/EmployeeSearchEngine.java:130-134 | None iff the store is empty. Otherwise the result is the first listed employee whose rating is at least every other rating. |
| SearchEngine.FirstMaxUnique | src/main/java/com/ibra/employeeapplication/backend/service/EmployeeSearchEngine.java:130-134 | Only one position can be the first with maximal rating, so the top performer is determined. |
| SearchEngine.Iterator | src/main/java/com/ibra/employeeapplication/backend/service/EmployeeSearchEngine.java:148-158 | A new iterator has exactly the stored records left, one per id, and has a next element iff the store is not empty. |
| SearchEngine.HasNext | src/main/java/com/ibra/employeeapplication/backend/service/EmployeeSearchEngine.java:160-163 | hasNext holds exactly when some employee is still to be visited. |
| SearchEngine.Next | src/main/java/com/ibra/employeeapplication/backend/service/EmployeeSearchEngine.java:160-168 | next fails with NoSuchElement exactly when hasNext is false. Otherwise it yields the head and leaves the rest. |
| SearchEngine.ForEach | src/main/java/com/ibra/employeeapplication/backend/service/EmployeeSearchEngine.java:148-169 | Driving the iterator to exhaustion visits exactly the listing, in order. |
| SearchEngine.Drain | src/main/java/com/ibra/employeeapplication/backend/service/EmployeeSearchEngine.java:153-169 | Calling next() while hasNext() holds yields exactly the elements the iterator had left, in order, and then stops. |
| SalaryManager.RaiseRows | src/main/java/com/ibra/employeeapplication/backend/service/SalaryManager.java:29-39 | A raise pass multiplies exactly the eligible rows by the factor, leaves the others as they are, and counts the eligible rows. |
| SalaryManager.GiveRaise | src/main/java/com/ibra/employeeapplication/backend/service/SalaryManager.java:24-40 | Fails with IllegalArgument iff percentage ≤ 0. Otherwise it keeps the ids, scales each eligible employee's salary by (1 + p/100), leaves every ineligible record unchanged and returns the number raised. |
| SalaryManager.RaiseNeverLowers | src/main/java/com/ibra/employeeapplication/backend/service/SalaryManager.java:33-37 | A positive raise never lowers a salary, and it strictly increases each positive eligible salary. |
| SalaryManager.GiveSalaryRaiseByPerformance | src/main/java/com/ibra/employeeapplication/backend/service/SalaryManager.java:24-40 | Fails iff percentage ≤ 0. Otherwise it raises exactly the active employees rated at least the minimum, returns how many those are and keeps the ids. |
| SalaryManager.PerformanceRaiseRecords | src/main/java/com/ibra/employeeapplication/backend/service/SalaryManager.java:29-37 | After the performance raise, each id maps to its old record, with the salary scaled iff the record was eligible. |
| SalaryManager.GiveSalaryRaiseByExperience | src/main/java/com/ibra/employeeapplication/backend/service/SalaryManager.java:48-64 | The same, for active employees with at least the threshold years. |
| SalaryManager.ExperienceRaiseRecords | src/main/java/com/ibra/employeeapplication/backend/service/SalaryManager.java:53-61 | After the experience raise, each id maps to its old record, with the salary scaled iff the record was eligible. |
| SalaryManager.GiveSalaryRaiseByDepartment | src/main/java/com/ibra/employeeapplication/backend/service/SalaryManager.java:72-88 | The same, for active employees whose department equals the argument ignoring case. |
| SalaryManager.DepartmentRaiseRecords | src/main/java/com/ibra/employeeapplication/backend/service/SalaryManager.java:77-85 | After the department raise, each id maps to its old record, with the salary scaled iff the record was eligible. |
| SalaryManager.CountQualifying | src/main/java/com/ibra/employeeapplication/backend/service/SalaryManager.java:39 | The returned count equals the number of distinct qualifying records. |
| SalaryManager.GetTopPaidEmployees | src/main/java/com/ibra/employeeapplication/backend/service/SalaryManager.java:95-104 | As written. Fails with IllegalArgument iff n ≤ 0. Otherwise it returns min(n, count) stored employees in ascending years, and nobody left out has fewer years than anyone returned. |
| SalaryManager.PrefixOfSorted | src/main/java/com/ibra/employeeapplication/backend/service/SalaryManager.java:100-103 | A prefix of a sorted permutation is drawn from the input, stays sorted, and precedes everything it leaves out. |
| SalaryManager.GetTopPaidEmployeesIntended | src/main/java/com/ibra/employeeapplication/backend/service/SalaryManager.java:90-104 | Corrected: fails iff n ≤ 0. Otherwise it returns min(n, count) employees in non-increasing salary, and nobody left out earns more than anyone returned. |
| SalaryManager.TopPaidCanOmitHighestPaid | src/main/java/com/ibra/employeeapplication/backend/service/SalaryManager.java:95-104 | With a junior who earns less than a senior, the as-written top-1 returns the junior and the corrected one returns the senior. |
| SalaryManager.TopOneAsWritten | src/main/java/com/ibra/employeeapplication/backend/service/SalaryManager.java:100-103 | With two employees, the as-written top-1 is whoever has fewer years. |
| SalaryManager.TopOneIntended | src/main/java/com/ibra/employeeapplication/backend/service/SalaryManager.java:90-93 | With two employees, the corrected top-1 is whoever earns more. |
| SalaryManager.CalculateAverageSalary | src/main/java/com/ibra/employeeapplication/backend/service/SalaryManager.java:110-115 | 0 for an empty store, otherwise the mean salary. It is never negative. |
| SalaryManager.AverageSalaryByDepartment | src/main/java/com/ibra/employeeapplication/backend/service/SalaryManager.java:122-128 | The mean salary of the employees matching the department ignoring case. It is 0 when nobody matches and never negative. |
| SalaryManager.AverageSalaryPerDepartment | src/main/java/com/ibra/employeeapplication/backend/service/SalaryManager.java:134-140 | The keys are exactly the departments present. Each value is the mean salary of that department's members. |
| SalaryManager.AveragePerDepartmentBounds | src/main/java/com/ibra/employeeapplication/backend/service/SalaryManager.java:134-140 | A department's average lies within any bounds of its members' salaries. |
| SalaryManager.TotalSalaryCost | src/main/java/com/ibra/employeeapplication/backend/service/SalaryManager.java:146-151 | The sum of the salaries of active employees only. It is non-negative. |
| SalaryManager.TotalSalaryCostPerDepartment | src/main/java/com/ibra/employeeapplication/backend/service/SalaryManager.java:157-164 | The keys are exactly the departments with at least one active employee. Each value is that department's active salary total. |
| SalaryManager.TotalCostPerDepartmentSums | src/main/java/com/ibra/employeeapplication/backend/service/SalaryManager.java:146-164 | The per-department totals sum to the company total. |
| SalaryManager.MaxSalary | src/main/java/com/ibra/employeeapplication/backend/service/SalaryManager.java:171-175 | The maximum is some employee's salary and bounds all salaries from above. |
| SalaryManager.MinSalary | src/main/java/com/ibra/employeeapplication/backend/service/SalaryManager.java:171-175 | The minimum is some employee's salary and bounds all salaries from below. |
| SalaryManager.SalaryGap | src/main/java/com/ibra/employeeapplication/backend/service/SalaryManager.java:170-176 | Negative infinity iff the store is empty, which is what DoubleSummaryStatistics gives. Otherwise it is the non-negative difference between two stored salaries, and no two salaries differ by more. |
| SalaryManager.AnyEmployeesAboveSalary | src/main/java/com/ibra/employeeapplication/backend/service/SalaryManager.java:184-188 | True iff some employee whose department equals the argument ignoring case earns strictly more than the threshold. |
| Grouping.Departments | src/main/java/com/ibra/employeeapplication/backend/service/EmployeeSearchEngine.java:118-121 | The distinct department strings present, each exactly once. |
| Grouping.Members | src/main/java/com/ibra/employeeapplication/backend/controller/EmployeeDisplay.java:54-55 | A department's group is exactly its employees, in listing order. |
| Grouping.MembersNonEmpty | src/main/java/com/ibra/employeeapplication/backend/controller/EmployeeDisplay.java:54-55 | A group is non-empty exactly for the departments present. |
| Grouping.GroupsPartition | src/main/java/com/ibra/employeeapplication/backend/service/SalaryManager.java:134-164 | Summing any weight group by group over the departments gives the total over all employees. |
| Grouping.GroupSizesPartition | src/main/java/com/ibra/employeeapplication/backend/controller/EmployeeDisplay.java:54-82 | The department group sizes sum to the number of employees. |
| Grouping.SumActive | src/main/java/com/ibra/employeeapplication/backend/service/SalaryManager.java:147-150 | Summing the salaries of active employees equals summing salary-if-active over everybody. |
| Grouping.Tally | src/main/java/com/ibra/employeeapplication/backend/service/EmployeeSearchEngine.java:118-121 | groupingBy with counting: the keys are the departments present, each mapped to its member count. |
| Reports.GroupBy | src/main/java/com/ibra/employeeapplication/backend/controller/EmployeeDisplay.java:54-55 | Collectors.groupingBy: the keys are exactly the classifier values that occur. Each key maps to the employees with that value, in listing order. |
| Reports.SalaryBandOf | src/main/java/com/ibra/employeeapplication/backend/controller/EmployeeDisplay.java:100-107 | Every salary falls in the band whose half-open range contains it: below 50000, [50000, 75000), [75000, 100000), [100000, 125000), or 125000 and above. |
| Reports.SalaryBandsDisjoint | src/main/java/com/ibra/employeeapplication/backend/controller/EmployeeDisplay.java:100-107 | The salary bands do not overlap: a salary in a band is classified as that band. |
| Reports.SalaryLabelInjective | src/main/java/com/ibra/employeeapplication/backend/controller/EmployeeDisplay.java:115-121 | Distinct salary bands have distinct captions. |
| Reports.SalaryDistribution | src/main/java/com/ibra/employeeapplication/backend/controller/EmployeeDisplay.java:90-130 | The fixed message iff the store is empty. Otherwise there are five lines in the fixed band order, each with its caption and the number of employees in that band, zero included. |
| Reports.SalaryBandsPartition | src/main/java/com/ibra/employeeapplication/backend/controller/EmployeeDisplay.java:100-107 | The five band counts of any list sum to its length. |
| Reports.SalaryDistributionSums | src/main/java/com/ibra/employeeapplication/backend/controller/EmployeeDisplay.java:115-126 | The five printed counts sum to the number of employees. |
| Reports.RatingBandOf | src/main/java/com/ibra/employeeapplication/backend/controller/EmployeeDisplay.java:145-152 | Every rating falls in the band split at 2.0, 3.0, 4.0 and 4.5, with lower bounds inclusive. |
| Reports.RatingBandsDisjoint | src/main/java/com/ibra/employeeapplication/backend/controller/EmployeeDisplay.java:145-152 | The rating bands do not overlap. |
| Reports.RatingLabelInjective | src/main/java/com/ibra/employeeapplication/backend/controller/EmployeeDisplay.java:158-164 | Distinct rating bands have distinct captions. |
| Reports.PerformanceSummary | src/main/java/com/ibra/employeeapplication/backend/controller/EmployeeDisplay.java:135-181 | The fixed message iff the store is empty. Otherwise there are five sections from Outstanding to Poor, each listing exactly that band's employees in listing order, with its count. An empty band lists nobody. |
| Reports.RatingBandsPartition | src/main/java/com/ibra/employeeapplication/backend/controller/EmployeeDisplay.java:145-152 | The five rating-band sizes of any list sum to its length. |
| Reports.PerformanceSummarySums | src/main/java/com/ibra/employeeapplication/backend/controller/EmployeeDisplay.java:166-177 | The five section counts sum to the number of employees. |
| Reports.Section | src/main/java/com/ibra/employeeapplication/backend/controller/EmployeeDisplay.java:64-79 | A department block: its size, an active count that is at most the size and equals the number of active members, and the mean salary and mean rating of its members. |
| Reports.DepartmentSummary | src/main/java/com/ibra/employeeapplication/backend/controller/EmployeeDisplay.java:53-85 | The fixed message iff the store is empty. Otherwise there is one block per distinct department string (exact case), holding that department's members and their non-empty size, active count and averages. |
| Reports.DepartmentSummarySums | src/main/java/com/ibra/employeeapplication/backend/controller/EmployeeDisplay.java:54-82 | The department block sizes sum to the number of employees. |
| Scenarios.StaffConstructed | src/main/java/com/ibra/employeeapplication/backend/test/EmployeeManagementSystemTest.java:34-52 | The five fixture employees pass constructor validation and hold the given values. |
| Scenarios.SetupReached | src/main/java/com/ibra/employeeapplication/backend/test/EmployeeManagementSystemTest.java:25-41 | Adding the four fixture employees to an empty store succeeds each time and stores them in order. |
| Scenarios.AddAllAppends | src/main/java/com/ibra/employeeapplication/backend/test/EmployeeManagementSystemTest.java:33-37 | Adding well-formed records with fresh, distinct ids one after another succeeds and appends them all. |
| Scenarios.AddScenario | src/main/java/com/ibra/employeeapplication/backend/test/EmployeeManagementSystemTest.java:48-63 | Adding Chris succeeds and makes the count 5; adding him again fails. |
| Scenarios.SearchScenario | src/main/java/com/ibra/employeeapplication/backend/test/EmployeeManagementSystemTest.java:65-78 | "IT" finds 2 employees and "Finance" finds none. |
| Scenarios.DeleteScenario | src/main/java/com/ibra/employeeapplication/backend/test/EmployeeManagementSystemTest.java:80-93 | Removing id 2 succeeds, leaves 3 employees, and id 2 is no longer found. |
| Scenarios.RaiseScenario | src/main/java/com/ibra/employeeapplication/backend/test/EmployeeManagementSystemTest.java:95-133 | A 10% raise for IT raises 2 employees, each by exactly a factor of 1.1, and leaves the others unchanged. |
| Scenarios.InvalidSalaryScenario | src/main/java/com/ibra/employeeapplication/backend/test/EmployeeManagementSystemTest.java:135-152 | Constructing an employee with salary -5000 fails with InvalidSalary. |
| Scenarios.TopPaidScenario | src/main/java/com/ibra/employeeapplication/backend/service/SalaryManager.java:95-104 | On the fixture, the as-written top-1 "highest paid" is Alice (38000, 2 years); the corrected one is Bob (65000). |
| Scenarios.SalaryDistributionScenario | src/main/java/com/ibra/employeeapplication/backend/controller/EmployeeDisplay.java:90-130 | On the fixture, the salary distribution counts are 2, 2, 0, 0, 0. |

## Left out

- Console output is not modelled: `displayAllEmployees`, `displaySearchResults`, `displaySalaryReport` and the log lines inside add, remove and update. It is I/O with no effect on state.
- Report text layout is not modelled: `String.format`, `%.2f` and the banners. The reports are modelled as captions, counts, member lists and exact averages.
- IEEE-754 arithmetic is not modelled. Salaries and ratings are exact reals, so raises, sums and averages carry no rounding, NaN or overflow.
- `String.trim`, `toLowerCase` and `equalsIgnoreCase` are modelled on ASCII: whitespace is the characters up to U+0020, and only A–Z fold. Full Unicode case mapping is not modelled.
- HashMap iteration order is not modelled. The store lists records in insertion order, and the department report lists departments in first-appearance order. The source's order comes from the key hashes, and it can differ from the model's. With ids 2 and then 1 added, both rated 5.0, the JDK lists id 1 first, so `findTopPerformer` returns id 1 where the model returns id 2. The order of the department report's blocks differs in the same way. Results that do not depend on order (membership, counts, sums, averages, the sorted views up to ties) agree.
- The exception class hierarchy is not part of this model. Exceptions are an `Error` value. A rejected name, department or salary inside `updateEmployeeDetails` is modelled as a false return with nothing changed.
- Null arguments and null-pointer paths are not modelled, except the constructor's explicit null checks on id, name and department.
- Object aliasing is not modelled. Mutation through references held by callers is invisible here, and raises and updates return a new store instead of mutating shared records.
- `setEmployeeId`, `toString`, the JavaFX UI in `EmployeeApplication.java` and `module-info.java` are not part of this model. The setter is never called, and the rest is presentation or wiring.
- Employee ids are integers: the source is generic in the id type, and its only instantiation uses `Integer`.
- The documented "most experienced first" order for `getAllEmployeesByExperience` is not what the code does. The code sorts by ascending years, and `SearchEngine.AllEmployeesByExperience` models the code.
- An empty store is not modelled as five zero salary buckets. The salary distribution returns its fixed message for an empty store, as the code does.
- Sorting.Sort: the model proves that sorting yields a permutation that is ordered and stable. It does not model TimSort's algorithm or its exception on an inconsistent comparator; sorting requires a valid comparator instead.

## Findings

| source | as written | input that shows it | evidently intended | confidence | as-written member | corrected member |
|---|---|---|---|---|---|---|
| src/main/java/com/ibra/employeeapplication/backend/entity/Employee.java:41-47 | The rating and years checks read the fields, which are still at their default 0, not the parameters. The checks can never fire. | rating 7.5, years -3, otherwise valid: the construction succeeds and stores rating 7.5 | reject a rating outside [0, 5] and negative years, as the exception messages say | not executed | Entity.NewEmployeeAcceptsOutOfRange | Entity.NewEmployeeIntended |
| src/main/java/com/ibra/employeeapplication/backend/service/SalaryManager.java:100-103 | `getTopPaidEmployees` sorts by natural order, ascending years, so it returns the least experienced employees | the test fixture with n = 1: the result is Alice (38000), not Bob (65000) | the n highest salaries, as the method's comment says | not executed | SalaryManager.TopPaidCanOmitHighestPaid | SalaryManager.GetTopPaidEmployeesIntended |
