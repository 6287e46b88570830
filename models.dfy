/**
 * The records of the employee directory (the `Employee` and `Manager`
 * entities and the DTOs the services exchange), the fixed error messages and
 * the typed failures the services raise.
 */
module Models {
  import opened Wrappers

  /** A 128-bit GUID; generated by the caller and handed in. */
  type Guid = nat

  /** A UTC instant (`DateTime.UtcNow`), handed in by the caller as a tick count. */
  type Timestamp = int

  /** A row of the Employees table; `passwordHash` is nullable. */
  datatype Employee = Employee(
    id: int,
    guid: Guid,
    email: string,
    passwordHash: Option<string>,
    fullName: string,
    createdAt: Timestamp,
    managerId: int)

  /** A row of the Managers table; `passwordHash` is nullable. */
  datatype Manager = Manager(
    id: int,
    guid: Guid,
    email: string,
    passwordHash: Option<string>,
    fullName: string,
    createdAt: Timestamp)

  /** The public shape of an employee: every column except the password hash. */
  datatype EmployeeDto = EmployeeDto(
    id: int,
    guid: Guid,
    email: string,
    fullName: string,
    createdAt: Timestamp,
    managerId: int)

  /** The body of a create request; each field may be null. */
  datatype CreateEmployeeDto = CreateEmployeeDto(
    email: Option<string>,
    password: Option<string>,
    fullName: Option<string>)

  /** The body of an update request; only the password is optional. */
  datatype UpdateEmployeeDto = UpdateEmployeeDto(
    email: string,
    password: Option<string>,
    fullName: string)

  datatype RegisterManagerDto = RegisterManagerDto(email: string, password: string, fullName: string)

  datatype LoginDto = LoginDto(email: string, password: string)

  // The shared error messages.
  const EmployeeNotFound := "Employee not found"
  const ManagerNotFound := "Manager not found"
  const InvalidCredentials := "Invalid credentials"
  const EmailAlreadyExists := "Email already exists"
  const UnauthorizedAccess := "Unauthorized access"

  /**
   * The exceptions a service operation ends with: the three typed ones and
   * `Unhandled` for an exception raised inside a library call.
   */
  datatype ServiceError =
    | BadRequest(message: string)
    | NotFound(message: string)
    | Unauthorized(message: string)
    | Unhandled

  /** A service result: a value, or the exception that ended the call. */
  datatype Result<T> = Success(value: T) | Failure(error: ServiceError)

  /**
   * `string.IsNullOrEmpty`. For a string a form hands over, this is also
   * exactly JavaScript falsiness.
   */
  predicate IsNullOrEmpty(s: Option<string>)
  {
    s.None? || s.value == ""
  }

  /** The object mapping used for every employee the services return. */
  function ToDto(e: Employee): (d: EmployeeDto)
  {
    EmployeeDto(e.id, e.guid, e.email, e.fullName, e.createdAt, e.managerId)
  }

  /** Two employees have the same DTO exactly when they differ at most in the password hash. */
  lemma ToDtoForgetsOnlyHash(a: Employee, b: Employee)
    ensures ToDto(a) == ToDto(b) <==> a.(passwordHash := b.passwordHash) == b
  {
  }

  function ToDtos(es: seq<Employee>): (ds: seq<EmployeeDto>)
    ensures |ds| == |es|
    ensures forall i :: 0 <= i < |es| ==> ds[i] == ToDto(es[i])
    ensures forall e :: e in es ==> ToDto(e) in ds
    ensures forall d :: d in ds ==> exists e :: e in es && ToDto(e) == d
  {
    var ds := seq(|es|, i requires 0 <= i < |es| => ToDto(es[i]));
    assert forall e :: e in es ==> ToDto(e) in ds by {
      forall e | e in es ensures ToDto(e) in ds {
        var i :| 0 <= i < |es| && es[i] == e;
        assert ds[i] == ToDto(e);
      }
    }
    assert forall d :: d in ds ==> exists e :: e in es && ToDto(e) == d by {
      forall d | d in ds ensures exists e :: e in es && ToDto(e) == d {
        var i :| 0 <= i < |ds| && ds[i] == d;
        assert es[i] in es;
      }
    }
    ds
  }
}
