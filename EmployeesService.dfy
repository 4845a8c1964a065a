/** The back end's cache-aside service. `listEmployees` is cached under one fixed
    key of the "employees" cache; every successful write clears that cache; a
    point lookup never uses it. The repository (a JPA table with an identity
    column) is modelled as a sequence of rows in id order and a next-id counter;
    the repository calls are the pure functions below. */
module EmployeesBackend {
  import opened Wrappers

  /** A row of the employees table: the identity the store assigned on save and
      the mutable name. */
  datatype Employee = Employee(id: int, name: string)

  /** The DTO the service returns and caches. As a create or update command only
      its name is read. */
  datatype EmployeeResource = EmployeeResource(id: int, name: string)

  /** `EmployeeNotFoundException`, carrying the id that was looked up. */
  datatype ServiceError = EmployeeNotFound(id: int)

  /** The service's private `toDto`. */
  function ToDto(e: Employee): (r: EmployeeResource)
    ensures r.id == e.id && r.name == e.name
  {
    EmployeeResource(e.id, e.name)
  }

  /** The DTO carries the whole of the entity: different rows give different DTOs. */
  lemma ToDtoIsInjective(a: Employee, b: Employee)
    ensures ToDto(a) == ToDto(b) ==> a == b
  {
  }

  /** Identities are handed out in increasing order and never reused, so the table
      in id order has strictly increasing ids (and hence no duplicates). */
  ghost predicate IdsIncreasing(rows: seq<Employee>)
  {
    forall i, j :: 0 <= i < j < |rows| ==> rows[i].id < rows[j].id
  }

  /** A well-formed table: ids in increasing order, each one handed out before
      `next`, the identity the table will hand out next. */
  ghost predicate WellFormed(rows: seq<Employee>, next: int)
  {
    IdsIncreasing(rows) && 1 <= next && forall i :: 0 <= i < |rows| ==> 1 <= rows[i].id < next
  }

  // ---------------------------------------------------------------------------
  // The repository, as functions on the table

  /** `repository.findById(id)`: the row with that id, if any. */
  function FindById(rows: seq<Employee>, id: int): (r: Option<Employee>)
    ensures r.Some? <==> exists i :: 0 <= i < |rows| && rows[i].id == id
    ensures r.Some? ==> r.value in rows && r.value.id == id
  {
    if rows == [] then None
    else if rows[0].id == id then Some(rows[0])
    else FindById(rows[1..], id)
  }

  /** `repository.findAllResources()`: one DTO per row, in table order. */
  function FindAllResources(rows: seq<Employee>): (r: seq<EmployeeResource>)
    ensures |r| == |rows|
    ensures forall i :: 0 <= i < |rows| ==> r[i].id == rows[i].id && r[i].name == rows[i].name
  {
    if rows == [] then [] else [ToDto(rows[0])] + FindAllResources(rows[1..])
  }

  /** `employee.setName(name)` on the managed row with that id, written back when
      the transaction commits: only that row's name changes, every id stays. */
  function Rename(rows: seq<Employee>, id: int, name: string): (r: seq<Employee>)
    ensures |r| == |rows|
    ensures forall i :: 0 <= i < |rows| ==>
              r[i].id == rows[i].id &&
              r[i].name == (if rows[i].id == id then name else rows[i].name)
  {
    if rows == [] then []
    else [if rows[0].id == id then Employee(id, name) else rows[0]] + Rename(rows[1..], id, name)
  }

  /** `repository.deleteById(id)`: removes the row with that id; an absent id
      leaves the table as it is. */
  function DeleteById(rows: seq<Employee>, id: int): (r: seq<Employee>)
    ensures forall e :: e in r <==> e in rows && e.id != id
    ensures FindById(rows, id).None? ==> r == rows
  {
    if rows == [] then []
    else if rows[0].id == id then DeleteById(rows[1..], id)
    else [rows[0]] + DeleteById(rows[1..], id)
  }

  // ---------------------------------------------------------------------------
  // What the service relies on from the repository

  /** After a save with a fresh id, the new row is found by that id and every
      other lookup is as before. */
  lemma {:induction false} FindAfterSave(rows: seq<Employee>, e: Employee, j: int)
    requires forall i :: 0 <= i < |rows| ==> rows[i].id != e.id
    ensures FindById(rows + [e], j) == if j == e.id then Some(e) else FindById(rows, j)
  {
    if rows != [] {
      assert (rows + [e])[1..] == rows[1..] + [e];
      FindAfterSave(rows[1..], e, j);
    }
  }

  /** After a rename, the renamed row is found with its new name, and every other
      lookup is as before. */
  lemma {:induction false} FindAfterRename(rows: seq<Employee>, id: int, name: string, j: int)
    ensures FindById(Rename(rows, id, name), j) ==
              if j != id then FindById(rows, j)
              else if FindById(rows, id).Some? then Some(Employee(id, name))
              else None
  {
    if rows != [] {
      assert Rename(rows, id, name)[1..] == Rename(rows[1..], id, name);
      FindAfterRename(rows[1..], id, name, j);
    }
  }

  /** After a delete, the id is gone and every other lookup is as before. */
  lemma {:induction false} FindAfterDelete(rows: seq<Employee>, id: int, j: int)
    ensures FindById(DeleteById(rows, id), j) == if j == id then None else FindById(rows, j)
  {
    if rows != [] {
      FindAfterDelete(rows[1..], id, j);
      if rows[0].id != id {
        assert ([rows[0]] + DeleteById(rows[1..], id))[1..] == DeleteById(rows[1..], id);
      }
    }
  }

  /** Renaming keeps every id, so it keeps the table in id order and within the
      identities handed out so far. */
  lemma RenameKeepsWellFormed(rows: seq<Employee>, id: int, name: string, next: int)
    requires WellFormed(rows, next)
    ensures WellFormed(Rename(rows, id, name), next)
  {
  }

  /** Saving a row at the end of the table adds its DTO at the end of the listing. */
  lemma ListingAfterSave(rows: seq<Employee>, e: Employee)
    ensures FindAllResources(rows + [e]) == FindAllResources(rows) + [ToDto(e)]
  {
    var listed, expected := FindAllResources(rows + [e]), FindAllResources(rows) + [ToDto(e)];
    forall i | 0 <= i < |listed| ensures listed[i] == expected[i] {
      if i < |rows| {
        assert (rows + [e])[i] == rows[i];
      }
    }
  }

  /** Deleting keeps the table in id order. */
  lemma {:induction false} DeleteKeepsIdsIncreasing(rows: seq<Employee>, id: int)
    requires IdsIncreasing(rows)
    ensures IdsIncreasing(DeleteById(rows, id))
  {
    if rows != [] {
      DeleteKeepsIdsIncreasing(rows[1..], id);
      var rest := DeleteById(rows[1..], id);
      if rows[0].id != id {
        forall k | 0 <= k < |rest| ensures rows[0].id < rest[k].id {
          assert rest[k] in rows[1..];
        }
      }
    }
  }

  // ---------------------------------------------------------------------------
  // The service

  class EmployeesService {
    /** The repository's table, in id order. */
    var rows: seq<Employee>
    /** The next identity the table's identity column will hand out. */
    var nextId: int
    /** The one entry of the "employees" cache: the cached listing, or empty. */
    var slot: Option<seq<EmployeeResource>>
    /** How many times the service has called `repository.findAllResources()`. */
    ghost var findAllCalls: nat

    /** The table is well formed, and the cache never holds a stale listing: a
        cached listing is exactly what the repository would return now. */
    ghost predicate Valid()
      reads this
    {
      WellFormed(rows, nextId) &&
      (slot.Some? ==> slot.value == FindAllResources(rows))
    }

    /** A service over an existing table; the cache starts empty. */
    constructor(table: seq<Employee>, next: int)
      requires WellFormed(table, next)
      ensures Valid()
      ensures rows == table && nextId == next
      ensures slot == None && findAllCalls == 0
    {
      rows := table;
      nextId := next;
      slot := None;
      findAllCalls := 0;
    }

    /** `@Cacheable("employees") listEmployees()`. On a hit the cached listing is
        returned and the repository is not queried; on a miss the repository is
        queried once and its answer is cached. Either way the answer is the
        repository's current listing. */
    method ListEmployees() returns (r: seq<EmployeeResource>)
      requires Valid()
      modifies this`slot, this`findAllCalls
      ensures Valid()
      ensures r == FindAllResources(rows)
      ensures slot == Some(r)
      ensures old(slot).Some? ==> r == old(slot).value && findAllCalls == old(findAllCalls)
      ensures old(slot).None? ==> findAllCalls == old(findAllCalls) + 1
    {
      if slot.Some? {
        r := slot.value;
      } else {
        r := FindAllResources(rows);
        findAllCalls := findAllCalls + 1;
        slot := Some(r);
      }
    }

    /** `findEmployeeById(id)`: a point lookup in the repository that neither reads
        nor writes the cache. */
    method FindEmployeeById(id: int) returns (r: Result<EmployeeResource, ServiceError>)
      ensures r.Ok? <==> exists i :: 0 <= i < |rows| && rows[i].id == id
      ensures r.Ok? ==> r.value.id == id && Employee(id, r.value.name) in rows
      ensures r.Err? ==> r.error == EmployeeNotFound(id)
    {
      var found := FindById(rows, id);
      if found.None? {
        r := Err(EmployeeNotFound(id));
      } else {
        r := Ok(ToDto(found.value));
      }
    }

    /** `@CacheEvict createEmployee(command)`: saves a row with a fresh identity and
        the command's name (the command's id is ignored), returns its DTO, then
        clears the cache. */
    method CreateEmployee(command: EmployeeResource) returns (r: EmployeeResource)
      requires Valid()
      modifies this`rows, this`nextId, this`slot
      ensures Valid()
      ensures r == EmployeeResource(old(nextId), command.name)
      ensures forall i :: 0 <= i < |old(rows)| ==> old(rows)[i].id != r.id
      ensures rows == old(rows) + [Employee(r.id, r.name)]
      ensures nextId == old(nextId) + 1
      ensures FindById(rows, r.id) == Some(Employee(r.id, r.name))
      ensures slot == None
    {
      var employee := Employee(nextId, command.name);
      FindAfterSave(rows, employee, employee.id);
      rows := rows + [employee];
      nextId := nextId + 1;
      r := ToDto(employee);
      slot := None;
    }

    /** `@Transactional @CacheEvict updateEmployee(id, command)`. An absent id throws
        `EmployeeNotFoundException`; the eviction runs only after a normal return,
        so then neither the table nor the cache changes. Otherwise only that row's
        name changes and the cache is cleared. */
    method UpdateEmployee(id: int, command: EmployeeResource)
      returns (r: Result<EmployeeResource, ServiceError>)
      requires Valid()
      modifies this`rows, this`slot
      ensures Valid()
      ensures FindById(old(rows), id).None? ==>
                r == Err(EmployeeNotFound(id)) && rows == old(rows) && slot == old(slot)
      ensures FindById(old(rows), id).Some? ==>
                r == Ok(EmployeeResource(id, command.name)) &&
                rows == Rename(old(rows), id, command.name) &&
                FindById(rows, id) == Some(Employee(id, command.name)) &&
                slot == None
    {
      var found := FindById(rows, id);
      if found.None? {
        r := Err(EmployeeNotFound(id));
      } else {
        var employee := Employee(found.value.id, command.name);
        RenameKeepsWellFormed(rows, id, command.name, nextId);
        FindAfterRename(rows, id, command.name, id);
        rows := Rename(rows, id, command.name);
        r := Ok(ToDto(employee));
        slot := None;
      }
    }

    /** `@CacheEvict deleteEmployee(id)`: removes the row and clears the cache. The
        repository ignores an absent id, so the call then returns normally and the
        cache is cleared all the same (clearing an empty cache changes nothing). */
    method DeleteEmployee(id: int)
      requires Valid()
      modifies this`rows, this`slot
      ensures Valid()
      ensures rows == DeleteById(old(rows), id)
      ensures FindById(rows, id).None?
      ensures slot == None
    {
      DeleteKeepsIdsIncreasing(rows, id);
      FindAfterDelete(rows, id, id);
      rows := DeleteById(rows, id);
      slot := None;
    }
  }

  // ---------------------------------------------------------------------------
  // Sequences of calls

  /** Two listings with nothing in between give the same list, and the repository
      is queried at most once, by the first of them. */
  method ListTwice(s: EmployeesService) returns (first: seq<EmployeeResource>, second: seq<EmployeeResource>)
    requires s.Valid()
    modifies s
    ensures s.Valid()
    ensures first == second
    ensures s.findAllCalls <= old(s.findAllCalls) + 1
    ensures old(s.slot).Some? ==> s.findAllCalls == old(s.findAllCalls)
  {
    first := s.ListEmployees();
    second := s.ListEmployees();
  }

  /** A listing that follows a create re-queries the repository and contains the
      new employee. */
  method CreateThenList(s: EmployeesService, command: EmployeeResource)
    returns (created: EmployeeResource, listed: seq<EmployeeResource>)
    requires s.Valid()
    modifies s
    ensures s.Valid()
    ensures s.findAllCalls == old(s.findAllCalls) + 1
    ensures listed == FindAllResources(old(s.rows)) + [created]
    ensures created.name == command.name
  {
    ListingAfterSave(s.rows, Employee(s.nextId, command.name));
    created := s.CreateEmployee(command);
    listed := s.ListEmployees();
  }

  /** An update followed by a listing: after a successful update the repository is
      queried again and the listing is that of the renamed table, so the old name
      is not listed; after a failed one the listing is that of the unchanged table. */
  method UpdateThenList(s: EmployeesService, id: int, command: EmployeeResource)
    returns (updated: Result<EmployeeResource, ServiceError>, listed: seq<EmployeeResource>)
    requires s.Valid()
    modifies s
    ensures s.Valid()
    ensures updated.Ok? ==> s.findAllCalls == old(s.findAllCalls) + 1
    ensures updated.Ok? ==> listed == FindAllResources(Rename(old(s.rows), id, command.name))
    ensures updated.Err? ==> listed == FindAllResources(old(s.rows))
  {
    updated := s.UpdateEmployee(id, command);
    listed := s.ListEmployees();
  }

  /** A table with Ann; list, create Bob, list again. */
  method CreateAndListScenario()
  {
    var s := new EmployeesService([Employee(1, "Ann")], 2);
    var before := s.ListEmployees();
    assert before == [EmployeeResource(1, "Ann")];
    var bob := s.CreateEmployee(EmployeeResource(0, "Bob"));
    assert bob == EmployeeResource(2, "Bob") && s.slot == None;
    var after := s.ListEmployees();
    assert after == [EmployeeResource(1, "Ann"), EmployeeResource(2, "Bob")];
    assert s.findAllCalls == 2;
  }
}
