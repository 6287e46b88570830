/**
 * The employee directory service: create, read, list, search, update and
 * delete employees on behalf of a manager. Every operation on one employee
 * checks first that the employee exists and then that it belongs to the
 * calling manager; the e-mail uniqueness test is global, across managers.
 */
module EmployeeServices {
  import opened Wrappers
  import opened Seqs
  import opened Models
  import opened Credentials
  import opened ValidationExtensions
  import opened Data
  import opened Repositories

  /** Some row of `es` has e-mail `email`. */
  ghost predicate EmailInUse(es: seq<Employee>, email: string)
  {
    exists e :: e in es && e.email == email
  }

  /**
   * The row an update leaves behind: the new e-mail and full name, a new
   * hash only for a supplied non-empty password, every other column kept.
   */
  function ApplyUpdate(e: Employee, dto: UpdateEmployeeDto, auth: AuthService): (u: Employee)
    ensures u.id == e.id && u.guid == e.guid && u.createdAt == e.createdAt && u.managerId == e.managerId
    ensures u.email == dto.email && u.fullName == dto.fullName
    ensures IsNullOrEmpty(dto.password) ==> u.passwordHash == e.passwordHash
    ensures !IsNullOrEmpty(dto.password) ==> u.passwordHash == Some(auth.hashPassword(dto.password.value))
  {
    e.(email := dto.email, fullName := dto.fullName,
       passwordHash := if IsNullOrEmpty(dto.password) then e.passwordHash
                       else Some(auth.hashPassword(dto.password.value)))
  }

  /** `after` is `before` with the row keyed `id` replaced by `u`, in place. */
  ghost predicate ReplacedById(before: seq<Employee>, after: seq<Employee>, id: int, u: Employee)
  {
    && |after| == |before|
    && forall i :: 0 <= i < |after| ==> after[i] == if before[i].id == id then u else before[i]
  }

  /** `h` is the one stored employee with e-mail `email`. */
  ghost predicate SoleHolder(es: seq<Employee>, email: string, h: Employee)
  {
    h in es && h.email == email && forall x :: x in es && x.email == email ==> x == h
  }

  /** Two different employees of `es` have e-mail `email`. */
  ghost predicate SharedEmail(es: seq<Employee>, email: string)
  {
    exists a, b :: a in es && b in es && a.id != b.id && a.email == email && b.email == email
  }

  /**
   * In a consistent database the e-mail lookup finds a sole holder once:
   * no row is stored twice, so the count the update compares with 1 is 1.
   */
  lemma SoleHolderFoundOnce(repo: EmployeeRepository, email: string, h: Employee)
    requires repo.context.Valid()
    requires SoleHolder(repo.context.employees, email, h)
    ensures repo.GetByEmail(email) == [h]
  {
    var es := repo.context.employees;
    FilterSoleMatch(es, (e: Employee) => e.email == email, EmployeeKey, h);
    var r := repo.GetByEmail(email);
    assert h in r;
    assert r == [h] by {
      assert |r| == 1 && r[0] in r;
    }
  }

  /**
   * Because the update refuses a new e-mail only when two employees already
   * hold it, one other holder survives the update next to the updated row:
   * the table then has two employees with the same e-mail.
   */
  lemma SingleHolderLeadsToDuplicate(before: seq<Employee>, after: seq<Employee>, id: int, u: Employee, h: Employee)
    requires ReplacedById(before, after, id, u)
    requires id in EmployeeIds(before) && u.id == id
    requires h in before && h.id != id && h.email == u.email
    ensures SharedEmail(after, u.email)
  {
    var i :| 0 <= i < |before| && before[i] == h;
    var e :| e in before && e.id == id;
    var k :| 0 <= k < |before| && before[k] == e;
    assert after[i] == h && after[k] == u;
    assert after[i] in after && after[k] in after;
  }

  class EmployeeService {
    const employees: EmployeeRepository
    const managers: ManagerRepository
    const auth: AuthService
    const runtime: Runtime

    constructor (employees: EmployeeRepository, managers: ManagerRepository, auth: AuthService, runtime: Runtime)
      requires employees.context == managers.context
      ensures this.employees == employees && this.managers == managers
      ensures this.auth == auth && this.runtime == runtime
    {
      this.employees := employees;
      this.managers := managers;
      this.auth := auth;
      this.runtime := runtime;
    }

    /** Both repositories work on one consistent database. */
    ghost predicate Valid()
      reads employees.context
    {
      employees.context == managers.context && employees.context.Valid()
    }

    /** The Employees table. */
    function Table(): (t: seq<Employee>)
      reads employees.context
    {
      employees.context.employees
    }

    /**
     * `CreateEmployee`: validates the request, then refuses an e-mail any
     * employee of any manager already has, then refuses a missing manager;
     * each refusal leaves the database as it was. Otherwise it stores one new
     * employee with the request's e-mail and full name, the hash of its
     * password, the caller as manager and a fresh key, and returns that row
     * without its hash.
     */
    method CreateEmployee(dto: CreateEmployeeDto, managerId: int, guid: Guid, now: Timestamp)
      returns (r: Result<EmployeeDto>)
      requires Valid()
      modifies employees.context
      ensures Valid()
      ensures ValidateEmployee(dto, runtime).Fail? ==>
                r == Failure(BadRequest(ValidateEmployee(dto, runtime).message))
      ensures ValidateEmployee(dto, runtime).Pass? && EmailInUse(old(Table()), dto.email.value) ==>
                r == Failure(BadRequest(EmailAlreadyExists))
      ensures ValidateEmployee(dto, runtime).Pass? && !EmailInUse(old(Table()), dto.email.value)
              && managerId !in ManagerIds(old(employees.context.managers)) ==>
                r == Failure(NotFound(ManagerNotFound))
      ensures r.Failure? ==> unchanged(employees.context)
      ensures r.Success? ==>
                && ValidateEmployee(dto, runtime).Pass?
                && !EmailInUse(old(Table()), dto.email.value)
                && managerId in ManagerIds(old(employees.context.managers))
                && var e := Employee(old(employees.context.nextEmployeeId), guid, dto.email.value,
                                     Some(auth.hashPassword(dto.password.value)), dto.fullName.value,
                                     now, managerId);
                   && e.id !in EmployeeIds(old(Table()))
                   && Table() == old(Table()) + [e]
                   && r.value == ToDto(e)
      ensures ValidateEmployee(dto, runtime).Pass? && !EmailInUse(old(Table()), dto.email.value)
              && managerId in ManagerIds(old(employees.context.managers)) ==>
                r.Success?
      ensures employees.context.managers == old(employees.context.managers)
      ensures employees.context.nextManagerId == old(employees.context.nextManagerId)
    {
      var check := ValidateEmployee(dto, runtime);
      if check.Fail? {
        return Failure(BadRequest(check.message));
      }
      PassedHasAllFields(dto, runtime);
      var email, password, fullName := dto.email.value, dto.password.value, dto.fullName.value;

      var existing := employees.GetByEmail(email);
      if |existing| > 0 {
        assert existing[0] in existing;
        return Failure(BadRequest(EmailAlreadyExists));
      }
      assert !EmailInUse(Table(), email);

      var manager := managers.GetById(managerId);
      if manager.None? {
        return Failure(NotFound(ManagerNotFound));
      }

      var employee := Employee(0, guid, email, Some(auth.hashPassword(password)), fullName, now, managerId);
      var added := employees.Add(employee);
      r := Success(ToDto(added));
    }

    /**
     * `DeleteEmployee`: fails with NotFound when no employee has key `id` and
     * with Unauthorized when it belongs to another manager, changing nothing;
     * otherwise removes exactly that employee and returns true.
     */
    method DeleteEmployee(id: int, managerId: int) returns (r: Result<bool>)
      requires Valid()
      modifies employees.context
      ensures Valid()
      ensures id !in EmployeeIds(old(Table())) ==> r == Failure(NotFound(EmployeeNotFound))
      ensures forall e :: e in old(Table()) && e.id == id ==>
                r == if e.managerId == managerId then Success(true) else Failure(Unauthorized(UnauthorizedAccess))
      ensures r.Failure? ==> unchanged(employees.context)
      ensures r.Success? ==>
                && (forall e :: e in Table() <==> e in old(Table()) && e.id != id)
                && IsSubsequence(Table(), old(Table()))
                && employees.context.managers == old(employees.context.managers)
                && employees.context.nextEmployeeId == old(employees.context.nextEmployeeId)
                && employees.context.nextManagerId == old(employees.context.nextManagerId)
    {
      var employee := employees.GetById(id);
      if employee.None? {
        return Failure(NotFound(EmployeeNotFound));
      }
      if employee.value.managerId != managerId {
        return Failure(Unauthorized(UnauthorizedAccess));
      }
      employees.Delete(employee.value);
      r := Success(true);
    }

    /**
     * `GetEmployee`: NotFound when no employee has key `id`; Unauthorized
     * when it belongs to another manager; otherwise that employee.
     */
    function GetEmployee(id: int, managerId: int): (r: Result<EmployeeDto>)
      requires Valid()
      reads employees.context
      ensures id !in EmployeeIds(Table()) ==> r == Failure(NotFound(EmployeeNotFound))
      ensures forall e :: e in Table() && e.id == id ==>
                r == if e.managerId == managerId then Success(ToDto(e))
                     else Failure(Unauthorized(UnauthorizedAccess))
    {
      match employees.GetById(id)
      case None => Failure(NotFound(EmployeeNotFound))
      case Some(e) =>
        if e.managerId != managerId then Failure(Unauthorized(UnauthorizedAccess))
        else Success(ToDto(e))
    }

    /** `GetEmployeesByManagerId`: exactly the caller's employees, never another manager's. */
    function GetEmployeesByManagerId(managerId: int): (r: seq<EmployeeDto>)
      reads employees.context
      ensures forall d :: d in r ==> d.managerId == managerId
      ensures forall d :: d in r ==> exists e :: e in Table() && ToDto(e) == d
      ensures forall e :: e in Table() && e.managerId == managerId ==> ToDto(e) in r
    {
      ToDtos(employees.GetByManagerId(managerId))
    }

    /**
     * `SearchEmployees`: searches every employee by name and only then keeps
     * the caller's; the result is exactly the caller's employees whose full
     * name contains `name`.
     */
    function SearchEmployees(name: string, managerId: int): (r: seq<EmployeeDto>)
      reads employees.context
      ensures forall d :: d in r ==> d.managerId == managerId && Contains(d.fullName, name)
      ensures forall d :: d in r ==> exists e :: e in Table() && ToDto(e) == d
      ensures forall e :: e in Table() && e.managerId == managerId && Contains(e.fullName, name) ==> ToDto(e) in r
    {
      var found := employees.SearchByName(name);
      ToDtos(Filter(found, (e: Employee) => e.managerId == managerId))
    }

    /**
     * Searching everyone and then keeping the caller's rows gives the same
     * list, in the same order, as searching among the caller's rows only.
     */
    lemma SearchIsScopedListing(name: string, managerId: int)
      ensures SearchEmployees(name, managerId)
              == ToDtos(Filter(employees.GetByManagerId(managerId), (e: Employee) => Contains(e.fullName, name)))
    {
      FilterCommutes(Table(), (e: Employee) => Contains(e.fullName, name), (e: Employee) => e.managerId == managerId);
    }

    /** Searching for the empty name lists all of the caller's employees. */
    lemma EmptySearchListsAll(managerId: int)
      ensures SearchEmployees("", managerId) == GetEmployeesByManagerId(managerId)
    {
      FilterAllPass(Table(), (e: Employee) => Contains(e.fullName, ""));
    }

    /**
     * `UpdateEmployee`: NotFound and Unauthorized as for a read. When the
     * e-mail changes it looks the new e-mail up and refuses only when at least
     * two employees already have it, so a single other holder does not block
     * the change. On success it overwrites e-mail and full name, replaces the
     * hash only for a non-empty password, keeps every other column and every
     * other employee, and returns true.
     */
    method UpdateEmployee(id: int, dto: UpdateEmployeeDto, managerId: int) returns (r: Result<bool>)
      requires Valid()
      modifies employees.context
      ensures Valid()
      ensures id !in EmployeeIds(old(Table())) ==> r == Failure(NotFound(EmployeeNotFound))
      ensures forall e :: e in old(Table()) && e.id == id ==>
                r == if e.managerId != managerId then Failure(Unauthorized(UnauthorizedAccess))
                     else if e.email != dto.email && |old(employees.GetByEmail(dto.email))| > 1
                     then Failure(BadRequest(EmailAlreadyExists))
                     else Success(true)
      ensures r.Failure? ==> unchanged(employees.context)
      ensures forall e :: e in old(Table()) && e.id == id && r.Success? ==>
                ReplacedById(old(Table()), Table(), id, ApplyUpdate(e, dto, auth))
      ensures r.Success? ==>
                && employees.context.managers == old(employees.context.managers)
                && employees.context.nextEmployeeId == old(employees.context.nextEmployeeId)
                && employees.context.nextManagerId == old(employees.context.nextManagerId)
      ensures forall h :: r.Success? && SoleHolder(old(Table()), dto.email, h) && h.id != id ==>
                SharedEmail(Table(), dto.email)
    {
      ghost var initial := Table();

      var found := employees.GetById(id);
      if found.None? {
        return Failure(NotFound(EmployeeNotFound));
      }
      var employee := found.value;
      if employee.managerId != managerId {
        return Failure(Unauthorized(UnauthorizedAccess));
      }

      if employee.email != dto.email {
        var existing := employees.GetByEmail(dto.email);
        if |existing| > 1 {
          return Failure(BadRequest(EmailAlreadyExists));
        }
      }

      ghost var before := employee;
      employee := employee.(email := dto.email);
      employee := employee.(fullName := dto.fullName);
      if !IsNullOrEmpty(dto.password) {
        employee := employee.(passwordHash := Some(auth.hashPassword(dto.password.value)));
      }
      assert employee == ApplyUpdate(before, dto, auth);

      assert employee.managerId in ManagerIds(employees.context.managers) by {
        assert before in Table();
      }
      employees.Update(employee);
      r := Success(true);
      forall h | SoleHolder(initial, dto.email, h) && h.id != id ensures SharedEmail(Table(), dto.email) {
        SingleHolderLeadsToDuplicate(initial, Table(), id, employee, h);
      }
    }
  }

  /**
   * The update quirk end to end: when exactly one other employee already has
   * the new e-mail, updating one's own employee to it succeeds, and two
   * employees then share that e-mail.
   */
  method SingleHolderUpdate(svc: EmployeeService, id: int, dto: UpdateEmployeeDto, managerId: int, h: Employee)
    returns (r: Result<bool>)
    requires svc.Valid()
    requires exists e :: e in svc.Table() && e.id == id && e.managerId == managerId
    requires SoleHolder(svc.Table(), dto.email, h) && h.id != id
    modifies svc.employees.context
    ensures r == Success(true) && SharedEmail(svc.Table(), dto.email)
  {
    SoleHolderFoundOnce(svc.employees, dto.email, h);
    r := svc.UpdateEmployee(id, dto, managerId);
  }
}
