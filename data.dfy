/**
 * The database context: the Employees and Managers tables and the schema
 * facts the repositories rely on. Rows are kept in insertion order; keys are
 * generated on add from a counter that never hands out a key twice; an
 * employee's `managerId` must name a stored manager (a required foreign key
 * whose deletion cascades to the employees).
 */
module Data {
  import opened Seqs
  import opened Models

  function EmployeeKey(e: Employee): (k: int) { e.id }

  function ManagerKey(m: Manager): (k: int) { m.id }

  function EmployeeIds(es: seq<Employee>): (ids: set<int>)
  {
    set e | e in es :: e.id
  }

  function ManagerIds(ms: seq<Manager>): (ids: set<int>)
  {
    set m | m in ms :: m.id
  }

  class ApplicationDbContext {
    var employees: seq<Employee>
    var managers: seq<Manager>
    /** The key the next added employee gets. */
    var nextEmployeeId: int
    /** The key the next added manager gets. */
    var nextManagerId: int

    /**
     * The schema invariant: keys are positive, below the next key to hand out
     * and strictly increasing along each table (so unique), and every
     * employee's manager exists.
     */
    ghost predicate Valid()
      reads this
    {
      && nextEmployeeId >= 1 && nextManagerId >= 1
      && StrictlyIncreasing(employees, EmployeeKey)
      && StrictlyIncreasing(managers, ManagerKey)
      && (forall e :: e in employees ==> 0 < e.id < nextEmployeeId)
      && (forall m :: m in managers ==> 0 < m.id < nextManagerId)
      && (forall e :: e in employees ==> e.managerId in ManagerIds(managers))
    }

    /** An empty database. */
    constructor ()
      ensures Valid()
      ensures employees == [] && managers == []
      ensures nextEmployeeId == 1 && nextManagerId == 1
    {
      employees, managers := [], [];
      nextEmployeeId, nextManagerId := 1, 1;
    }
  }
}
