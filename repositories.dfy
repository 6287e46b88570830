/**
 * The two repositories: typed queries and writes over the tables of one
 * shared `ApplicationDbContext`. Queries are functions of the tables; writes
 * replace the table they change and keep the schema invariant.
 */
module Repositories {
  import opened Wrappers
  import opened Seqs
  import opened Models
  import opened Data

  /** Replacing rows without changing their keys keeps the set of manager keys. */
  lemma SameKeysSameManagerIds(ms: seq<Manager>, ns: seq<Manager>)
    requires |ns| == |ms| && forall i :: 0 <= i < |ms| ==> ns[i].id == ms[i].id
    ensures ManagerIds(ns) == ManagerIds(ms)
  {
    forall k | k in ManagerIds(ms) ensures k in ManagerIds(ns) {
      var m :| m in ms && m.id == k;
      var i :| 0 <= i < |ms| && ms[i] == m;
      assert ns[i] in ns;
    }
    forall k | k in ManagerIds(ns) ensures k in ManagerIds(ms) {
      var m :| m in ns && m.id == k;
      var i :| 0 <= i < |ns| && ns[i] == m;
      assert ms[i] in ms;
    }
  }

  class EmployeeRepository {
    const context: ApplicationDbContext

    constructor (context: ApplicationDbContext)
      ensures this.context == context
    {
      this.context := context;
    }

    /** The stored employee with key `id`, or null when there is none. */
    function GetById(id: int): (r: Option<Employee>)
      reads context
      ensures r.Some? ==> r.value in context.employees && r.value.id == id
      ensures r.None? <==> id !in EmployeeIds(context.employees)
      ensures context.Valid() ==> forall e :: e in context.employees && e.id == id ==> r == Some(e)
    {
      KeysAreUnique(context.employees, EmployeeKey);
      match FirstIndex(context.employees, (e: Employee) => e.id == id)
      case Some(i) => Some(context.employees[i])
      case None => None
    }

    /** Every stored employee, in table order. */
    function GetAll(): (r: seq<Employee>)
      reads context
      ensures r == context.employees
    {
      context.employees
    }

    /** Inserts `employee` under a newly generated key and returns the stored row. */
    method Add(employee: Employee) returns (added: Employee)
      requires context.Valid()
      requires employee.managerId in ManagerIds(context.managers)
      modifies context
      ensures context.Valid()
      ensures added == employee.(id := old(context.nextEmployeeId))
      ensures added.id !in EmployeeIds(old(context.employees))
      ensures context.employees == old(context.employees) + [added]
      ensures context.nextEmployeeId == old(context.nextEmployeeId) + 1
      ensures context.managers == old(context.managers)
      ensures context.nextManagerId == old(context.nextManagerId)
    {
      added := employee.(id := context.nextEmployeeId);
      context.employees := context.employees + [added];
      context.nextEmployeeId := context.nextEmployeeId + 1;
    }

    /** Overwrites the stored row whose key is `employee.id`; no other row changes. */
    method Update(employee: Employee)
      requires context.Valid()
      requires employee.id in EmployeeIds(context.employees)
      requires employee.managerId in ManagerIds(context.managers)
      modifies context
      ensures context.Valid()
      ensures |context.employees| == |old(context.employees)|
      ensures forall i :: 0 <= i < |context.employees| ==>
                context.employees[i] == if old(context.employees[i]).id == employee.id then employee
                                        else old(context.employees[i])
      ensures context.managers == old(context.managers)
      ensures context.nextEmployeeId == old(context.nextEmployeeId)
      ensures context.nextManagerId == old(context.nextManagerId)
    {
      var es := context.employees;
      context.employees := seq(|es|, i requires 0 <= i < |es| => if es[i].id == employee.id then employee else es[i]);
      assert forall i :: 0 <= i < |es| ==> context.employees[i].id == es[i].id;
      forall e | e in context.employees ensures 0 < e.id < context.nextEmployeeId && e.managerId in ManagerIds(context.managers) {
        var i :| 0 <= i < |context.employees| && context.employees[i] == e;
        assert es[i] in es;
        if es[i].id == employee.id {
          var old_e :| old_e in es && old_e.id == employee.id;
        }
      }
    }

    /** Removes the stored row whose key is `employee.id`; the other rows stay, in order. */
    method Delete(employee: Employee)
      requires context.Valid()
      requires employee.id in EmployeeIds(context.employees)
      modifies context
      ensures context.Valid()
      ensures forall e :: e in context.employees <==> e in old(context.employees) && e.id != employee.id
      ensures IsSubsequence(context.employees, old(context.employees))
      ensures context.managers == old(context.managers)
      ensures context.nextEmployeeId == old(context.nextEmployeeId)
      ensures context.nextManagerId == old(context.nextManagerId)
    {
      var keep := (e: Employee) => e.id != employee.id;
      FilterKeepsIncreasing(context.employees, keep, EmployeeKey);
      context.employees := Filter(context.employees, keep);
    }

    /** The employees of manager `managerId`, in table order. */
    function GetByManagerId(managerId: int): (r: seq<Employee>)
      reads context
      ensures forall e :: e in r <==> e in context.employees && e.managerId == managerId
      ensures IsSubsequence(r, context.employees)
    {
      Filter(context.employees, (e: Employee) => e.managerId == managerId)
    }

    /**
     * The employees whose full name contains `name` (ordinal, case-sensitive),
     * in table order; the empty name matches every employee.
     */
    function SearchByName(name: string): (r: seq<Employee>)
      reads context
      ensures forall e :: e in r <==> e in context.employees && Contains(e.fullName, name)
      ensures IsSubsequence(r, context.employees)
      ensures name == "" ==> r == context.employees
    {
      var matches := (e: Employee) => Contains(e.fullName, name);
      if name == "" then
        assert forall e :: e in context.employees ==> matches(e) by {
          forall e | e in context.employees ensures matches(e) {
            EmptyIsContained(e.fullName);
          }
        }
        FilterAllPass(context.employees, matches);
        Filter(context.employees, matches)
      else
        Filter(context.employees, matches)
    }

    /** Every employee whose e-mail equals `email`; there is no unique index, so there may be several. */
    function GetByEmail(email: string): (r: seq<Employee>)
      reads context
      ensures forall e :: e in r <==> e in context.employees && e.email == email
      ensures IsSubsequence(r, context.employees)
    {
      Filter(context.employees, (e: Employee) => e.email == email)
    }
  }

  class ManagerRepository {
    const context: ApplicationDbContext

    constructor (context: ApplicationDbContext)
      ensures this.context == context
    {
      this.context := context;
    }

    /** Every manager whose e-mail equals `email` under an ordinal, case-sensitive comparison. */
    function GetByEmail(email: string): (r: seq<Manager>)
      reads context
      ensures forall m :: m in r <==> m in context.managers && m.email == email
      ensures IsSubsequence(r, context.managers)
    {
      Filter(context.managers, (m: Manager) => m.email == email)
    }

    /** The stored manager with key `id`, or null when there is none. */
    function GetById(id: int): (r: Option<Manager>)
      reads context
      ensures r.Some? ==> r.value in context.managers && r.value.id == id
      ensures r.None? <==> id !in ManagerIds(context.managers)
      ensures context.Valid() ==> forall m :: m in context.managers && m.id == id ==> r == Some(m)
    {
      KeysAreUnique(context.managers, ManagerKey);
      match FirstIndex(context.managers, (m: Manager) => m.id == id)
      case Some(i) => Some(context.managers[i])
      case None => None
    }

    /** Every stored manager, in table order. */
    function GetAll(): (r: seq<Manager>)
      reads context
      ensures r == context.managers
    {
      context.managers
    }

    /** Inserts `manager` under a newly generated key and returns the stored row. */
    method Add(manager: Manager) returns (added: Manager)
      requires context.Valid()
      modifies context
      ensures context.Valid()
      ensures added == manager.(id := old(context.nextManagerId))
      ensures added.id !in ManagerIds(old(context.managers))
      ensures context.managers == old(context.managers) + [added]
      ensures context.nextManagerId == old(context.nextManagerId) + 1
      ensures context.employees == old(context.employees)
      ensures context.nextEmployeeId == old(context.nextEmployeeId)
    {
      added := manager.(id := context.nextManagerId);
      context.managers := context.managers + [added];
      context.nextManagerId := context.nextManagerId + 1;
    }

    /** Overwrites the stored manager whose key is `manager.id`; no other row changes. */
    method Update(manager: Manager)
      requires context.Valid()
      requires manager.id in ManagerIds(context.managers)
      modifies context
      ensures context.Valid()
      ensures |context.managers| == |old(context.managers)|
      ensures forall i :: 0 <= i < |context.managers| ==>
                context.managers[i] == if old(context.managers[i]).id == manager.id then manager
                                       else old(context.managers[i])
      ensures context.employees == old(context.employees)
      ensures context.nextEmployeeId == old(context.nextEmployeeId)
      ensures context.nextManagerId == old(context.nextManagerId)
    {
      var ms := context.managers;
      context.managers := seq(|ms|, i requires 0 <= i < |ms| => if ms[i].id == manager.id then manager else ms[i]);
      assert forall i :: 0 <= i < |ms| ==> context.managers[i].id == ms[i].id;
      SameKeysSameManagerIds(ms, context.managers);
    }

    /**
     * Removes the stored manager whose key is `manager.id` and, through the
     * cascading foreign key, every employee of that manager. Everything else
     * stays, in order.
     */
    method Delete(manager: Manager)
      requires context.Valid()
      requires manager.id in ManagerIds(context.managers)
      modifies context
      ensures context.Valid()
      ensures forall m :: m in context.managers <==> m in old(context.managers) && m.id != manager.id
      ensures IsSubsequence(context.managers, old(context.managers))
      ensures forall e :: e in context.employees <==> e in old(context.employees) && e.managerId != manager.id
      ensures IsSubsequence(context.employees, old(context.employees))
      ensures context.nextEmployeeId == old(context.nextEmployeeId)
      ensures context.nextManagerId == old(context.nextManagerId)
    {
      var keepManager := (m: Manager) => m.id != manager.id;
      var keepEmployee := (e: Employee) => e.managerId != manager.id;
      var ms := context.managers;
      FilterKeepsIncreasing(context.managers, keepManager, ManagerKey);
      FilterKeepsIncreasing(context.employees, keepEmployee, EmployeeKey);
      context.managers := Filter(context.managers, keepManager);
      context.employees := Filter(context.employees, keepEmployee);
      forall e | e in context.employees ensures e.managerId in ManagerIds(context.managers) {
        var m :| m in ms && m.id == e.managerId;
        assert m in context.managers;
      }
    }
  }
}
