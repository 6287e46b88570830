# Employee directory, scoped by manager

This project models the core of an employee-management system in Dafny.
Managers register and log in. Each manager then creates, lists, searches,
reads, updates and deletes their own employees. An employee belongs to
exactly one manager. Every operation on a single employee first checks that
the employee exists (otherwise "Employee not found") and then that it
belongs to the calling manager (otherwise "Unauthorized access"). E-mail
uniqueness is checked across all managers.

The layers follow the repository:

- `models.dfy` (`Models`): the records, the request shapes, the error
  messages and the service errors.
- `validation.dfy` (`ValidationExtensions`): the eight ordered creation
  rules and their messages.
- `data.dfy` (`Data`): the two tables, the key counters and the foreign
  key.
- `repositories.dfy` (`Repositories`): the lookups and the writes.
- `employee_service.dfy` (`EmployeeServices`) and `manager_service.dfy`
  (`ManagerServices`): the two services.
- Three client pages, on top of `search_terms.dfy` (`SearchTerms`):
  - `dashboard.dfy` (`DashboardPage`): the dashboard's search box;
  - `employee_list.dfy` (`EmployeeListPage`): the list's search box;
  - `edit_employee.dfy` (`EditEmployeePage`): the edit form.
- `seqs.dfy` (`Seqs`) and `wrappers.dfy` (`Wrappers`): generic sequence
  facts and an `Option`.

Modelling choices:

- **Database.** The database is a class, `ApplicationDbContext`. It holds one
  sequence per table, kept in insertion order. Keys come from counters that
  never hand out a value twice. The repositories and services are classes
  that hold a reference to this context. Their writes carry `modifies`
  clauses, and their queries are functions that read it.
- **Service errors.** A service call that throws `BadRequestException`,
  `NotFoundException` or `UnauthorizedException` returns
  `Failure(BadRequest/NotFound/Unauthorized(message))` with the same
  message, and leaves the database as it was.
- **Process inputs.** `Guid.NewGuid()` and `DateTime.UtcNow` are parameters.
- **Library functions.**
  - Password hashing, password verification and token generation are the
    three functions of an `AuthService` value.
  - `char.IsUpper`, `char.IsDigit`, `char.IsWhiteSpace` and the
    `MailAddress` parser are the functions of a `Runtime` value.
  - `Sound()` states the one law used about the library: a password verifies
    against its own hash.
- **Quirks kept as written.**
  - `UpdateEmployee` refuses a changed e-mail only when at least two other
    employees already hold it.
  - `SearchEmployees` searches every manager's employees by name and only
    then keeps the caller's.
  - The dashboard trims the search term before deciding whether to search.
    The employee list does not trim.

## Model

| member | source | states |
|---|---|---|
| Seqs.Filter | server/EmployeeManagement/EmployeeManager.Infrastructure/Repositories/EmployeeRepository.cs:95-98 | A LINQ `Where`: it keeps exactly the elements that satisfy the predicate, with their multiplicities, in their original order, and never grows the sequence |
| Seqs.FilterCommutes | server/EmployeeManagement/EmployeeManagement/Services/EmployeeService.cs:149-151 | Filtering by name and then by owner gives the same sequence as filtering by owner and then by name |
| Seqs.FilterAllPass | server/EmployeeManagement/EmployeeManager.Infrastructure/Repositories/EmployeeRepository.cs:110 | A `Where` whose predicate every element satisfies returns the sequence unchanged |
| Seqs.FilterAppend | server/EmployeeManagement/EmployeeManager.Infrastructure/Repositories/ManagerRepository.cs:37-39 | A lookup on a table with one row appended is the old lookup, plus that row when it matches |
| Seqs.FilterKeepsIncreasing | server/EmployeeManagement/EmployeeManager.Infrastructure/Repositories/EmployeeRepository.cs:84 | Removing rows keeps the keys strictly increasing |
| Seqs.KeysAreUnique | server/EmployeeManagement/EmployeeManager.Infrastructure/Repositories/EmployeeRepository.cs:38-40 | In a table with strictly increasing keys, two rows with the same key are the same row |
| Seqs.FirstIndex | server/EmployeeManagement/EmployeeManagement/Services/ManagerService.cs:61 | `FirstOrDefault`: the least index that satisfies the predicate, or `None` exactly when no element does |
| Seqs.ContainsIffOccurs | server/EmployeeManagement/EmployeeManager.Infrastructure/Repositories/EmployeeRepository.cs:110 | `string.Contains(sub)` holds exactly when `sub` occurs at some position of the string |
| Seqs.Contains | server/EmployeeManagement/EmployeeManager.Infrastructure/Repositories/EmployeeRepository.cs:110 | Ordinal `string.Contains`: the term is a prefix of the string or of one of its suffixes, and a contained term is never longer than the string. `Seqs.ContainsIffOccurs` relates it to an occurrence at a position |
| Seqs.IncreasingHasNoRepeats | server/EmployeeManagement/EmployeeManager.Infrastructure/Data/ApplicationDbContext.cs:19-20 | A table whose keys strictly increase holds no row twice |
| Seqs.ConstantCount | server/EmployeeManagement/EmployeeManagement/Services/EmployeeService.cs:174 | A sequence whose every element is `h` holds `h` exactly as often as its length, so a count is a multiplicity |
| Seqs.FilterSoleMatch | server/EmployeeManagement/EmployeeManagement/Services/EmployeeService.cs:173-174 | On a table with strictly increasing keys, a `Where` that only one row passes returns at most one row |
| Seqs.EmptyIsContained | server/EmployeeManagement/EmployeeManager.Infrastructure/Repositories/EmployeeRepository.cs:110 | Every string contains the empty string |
| Models.ToDtoForgetsOnlyHash | server/EmployeeManagement/EmployeeManagement/Services/EmployeeService.cs:138 | `Models.ToDto`, the DTO of one employee: two employees get the same DTO exactly when they differ at most in the password hash. So the DTO keeps id, guid, e-mail, full name, creation time and manager, and drops the hash |
| Models.ToDtos | server/EmployeeManagement/EmployeeManagement/Services/EmployeeService.cs:144 | Mapping a list of employees to DTOs keeps its length and order, and each DTO carries that employee's id, guid, e-mail, full name, creation time and manager, but no password hash |
| ValidationExtensions.ValidateEmployee | server/EmployeeManagement/EmployeeManager.Core/Extensions/ValidationExtensions.cs:17-58 | Passes exactly when all eight rules hold. Otherwise it fails with the message of the first rule, in source order, that does not hold |
| ValidationExtensions.IsValidEmail | server/EmployeeManagement/EmployeeManager.Core/Extensions/ValidationExtensions.cs:65-76 | An e-mail is valid exactly when the `MailAddress` parser accepts it and gives back an address equal to the input. A parse that throws counts as invalid |
| ValidationExtensions.PassedHasAllFields | server/EmployeeManagement/EmployeeManager.Core/Extensions/ValidationExtensions.cs:19-57 | A request that passes has an e-mail the parser gives back unchanged, a password of at least 8 characters and a full name of at least 2 |
| ValidationExtensions.BlankEmailIsRequired | server/EmployeeManagement/EmployeeManager.Core/Extensions/ValidationExtensions.cs:19-27 | A null or blank e-mail gets "Email is required", never "Invalid email format" |
| ValidationExtensions.BlankPasswordIsRequired | server/EmployeeManagement/EmployeeManager.Core/Extensions/ValidationExtensions.cs:29-32 | After a valid e-mail, a null or blank password gets "Password is required" |
| ValidationExtensions.ShortPasswordIsTooShort | server/EmployeeManagement/EmployeeManager.Core/Extensions/ValidationExtensions.cs:34-37 | After a valid e-mail, a non-blank password shorter than 8 gets the length message |
| ValidationExtensions.PasswordCharacterClasses | server/EmployeeManagement/EmployeeManager.Core/Extensions/ValidationExtensions.cs:39-47 | A long enough password with no upper-case letter gets the upper-case message, even if it also lacks a digit. One with an upper-case letter but no digit gets the digit message |
| ValidationExtensions.FullNameChecks | server/EmployeeManagement/EmployeeManager.Core/Extensions/ValidationExtensions.cs:49-57 | Once e-mail and password pass, a blank full name gets "Full name is required" and a one-character name gets the length message |
| Data.ApplicationDbContext.constructor | server/EmployeeManagement/EmployeeManager.Infrastructure/Data/ApplicationDbContext.cs:14-20 | A new database has empty Employees and Managers tables and satisfies the table invariant |
| Repositories.EmployeeRepository.GetById | server/EmployeeManagement/EmployeeManager.Infrastructure/Repositories/EmployeeRepository.cs:36-41 | Returns the stored employee with that key. Returns null exactly when no employee has that key |
| Repositories.EmployeeRepository.GetAll | server/EmployeeManagement/EmployeeManager.Infrastructure/Repositories/EmployeeRepository.cs:47-52 | The whole Employees table in table order |
| Repositories.EmployeeRepository.Add | server/EmployeeManagement/EmployeeManager.Infrastructure/Repositories/EmployeeRepository.cs:59-64 | Appends the employee under a fresh key and returns the stored row. Managers and the table invariant are unaffected |
| Repositories.EmployeeRepository.Update | server/EmployeeManagement/EmployeeManager.Infrastructure/Repositories/EmployeeRepository.cs:71-75 | Replaces the row with the employee's key, in place. Every other row, the managers and the invariant are kept |
| Repositories.EmployeeRepository.Delete | server/EmployeeManagement/EmployeeManager.Infrastructure/Repositories/EmployeeRepository.cs:82-86 | Removes exactly the row with that key and keeps the others in order. Managers and the invariant are kept |
| Repositories.EmployeeRepository.GetByManagerId | server/EmployeeManagement/EmployeeManager.Infrastructure/Repositories/EmployeeRepository.cs:93-99 | Exactly the employees of that manager, in table order |
| Repositories.EmployeeRepository.SearchByName | server/EmployeeManagement/EmployeeManager.Infrastructure/Repositories/EmployeeRepository.cs:106-112 | Exactly the employees whose full name contains the term, in table order. The empty term returns the whole table |
| Repositories.EmployeeRepository.GetByEmail | server/EmployeeManagement/EmployeeManager.Infrastructure/Repositories/EmployeeRepository.cs:119-125 | Exactly the employees with that e-mail, in table order |
| Repositories.ManagerRepository.GetByEmail | server/EmployeeManagement/EmployeeManager.Infrastructure/Repositories/ManagerRepository.cs:35-40 | Exactly the managers with that e-mail (ordinal comparison), in table order |
| Repositories.ManagerRepository.GetById | server/EmployeeManagement/EmployeeManager.Infrastructure/Repositories/ManagerRepository.cs:47-51 | The stored manager with that key, or null exactly when there is none |
| Repositories.ManagerRepository.GetAll | server/EmployeeManagement/EmployeeManager.Infrastructure/Repositories/ManagerRepository.cs:57-61 | The whole Managers table in table order |
| Repositories.ManagerRepository.Add | server/EmployeeManagement/EmployeeManager.Infrastructure/Repositories/ManagerRepository.cs:68-73 | Appends the manager under a fresh key and returns the stored row. Employees are unaffected |
| Repositories.ManagerRepository.Update | server/EmployeeManagement/EmployeeManager.Infrastructure/Repositories/ManagerRepository.cs:80-84 | Replaces the row with the manager's key, in place, and keeps every other row and the set of manager keys |
| Repositories.ManagerRepository.Delete | server/EmployeeManagement/EmployeeManager.Infrastructure/Repositories/ManagerRepository.cs:91-95 | Removes that manager and, through the cascading foreign key (ApplicationDbContext.cs:26-30), exactly that manager's employees. No employee is left pointing at a missing manager |
| EmployeeServices.ApplyUpdate | server/EmployeeManagement/EmployeeManagement/Services/EmployeeService.cs:180-186 | The updated row takes the new e-mail and full name. It gets a new hash only for a non-null, non-empty password; otherwise it keeps the old hash. Id, guid, creation time and manager are kept |
| EmployeeServices.SoleHolderFoundOnce | server/EmployeeManagement/EmployeeManagement/Services/EmployeeService.cs:173-174 | In a consistent database, the e-mail lookup for an e-mail that a single employee holds returns exactly that employee, so `Count()` is 1 and does not pass the `> 1` test |
| EmployeeServices.SingleHolderLeadsToDuplicate | server/EmployeeManagement/EmployeeManagement/Services/EmployeeService.cs:171-188 | After one row is replaced by a row carrying another holder's e-mail, the table has two employees with that e-mail |
| EmployeeServices.SingleHolderUpdate | server/EmployeeManagement/EmployeeManagement/Services/EmployeeService.cs:154-194 | When exactly one other employee holds the new e-mail, `UpdateEmployee` on one's own employee succeeds and leaves two employees sharing that e-mail |
| EmployeeServices.EmployeeService.CreateEmployee | server/EmployeeManagement/EmployeeManagement/Services/EmployeeService.cs:55-90 | Checks in this order, and each refusal changes nothing: validation messages first, then any existing holder of the e-mail, then a missing manager. When all three checks pass it succeeds. Success appends exactly one employee with the request's e-mail and full name, the hash of its password, the caller as manager and a fresh key. It returns that row without its hash, and the managers and their counter are unchanged |
| EmployeeServices.EmployeeService.DeleteEmployee | server/EmployeeManagement/EmployeeManagement/Services/EmployeeService.cs:100-122 | NotFound for an unknown key, then Unauthorized for another manager's employee, each changing nothing. Otherwise it removes exactly that employee, keeps the others in order, and returns true. The managers and both key counters are unchanged |
| EmployeeServices.EmployeeService.GetEmployee | server/EmployeeManagement/EmployeeManagement/Services/EmployeeService.cs:124-139 | NotFound for an unknown key, Unauthorized for another manager's employee, otherwise that employee's DTO |
| EmployeeServices.EmployeeService.GetEmployeesByManagerId | server/EmployeeManagement/EmployeeManagement/Services/EmployeeService.cs:141-145 | Contains every employee of the caller and nothing belonging to another manager |
| EmployeeServices.EmployeeService.SearchEmployees | server/EmployeeManagement/EmployeeManagement/Services/EmployeeService.cs:147-152 | Exactly the caller's employees whose full name contains the term; never another manager's |
| EmployeeServices.EmployeeService.SearchIsScopedListing | server/EmployeeManagement/EmployeeManagement/Services/EmployeeService.cs:149-151 | Searching everyone and then keeping the caller's rows gives the same list, in the same order, as searching the caller's list |
| EmployeeServices.EmployeeService.EmptySearchListsAll | server/EmployeeManagement/EmployeeManagement/Services/EmployeeService.cs:147-152 | Searching for the empty name returns the caller's whole list |
| EmployeeServices.EmployeeService.UpdateEmployee | server/EmployeeManagement/EmployeeManagement/Services/EmployeeService.cs:154-194 | NotFound, then Unauthorized. Then, only when the e-mail changes, BadRequest("Email already exists") if two or more employees hold the new e-mail. Each refusal changes nothing. Otherwise the row with that key becomes `ApplyUpdate` of itself, every other row and the managers are kept, and it returns true. When one other employee was the sole holder of the new e-mail, two employees share it afterwards |
| ManagerServices.LoginAmong | server/EmployeeManagement/EmployeeManagement/Services/ManagerService.cs:61-70 | Over the managers found for the e-mail, in lookup order: a token for the first one whose hash verifies, skipping those whose hash does not. "Invalid credentials" exactly when every hash is present and none verifies. A fault when a manager without a hash comes before any verifying one |
| ManagerServices.ManagerService.Login | server/EmployeeManagement/EmployeeManagement/Services/ManagerService.cs:58-71 | Login is `LoginAmong` over the e-mail lookup. A success names a stored manager with that e-mail whose hash verifies the password. If every such manager's hash rejects the password, the answer is (false, "Invalid credentials", null) |
| ManagerServices.SoleRegisteredLogsIn | server/EmployeeManagement/EmployeeManagement/Services/ManagerService.cs:43 | With a sound hash/verify pair, a lookup that finds only a manager stored with the hash of the password logs in with that manager's token |
| ManagerServices.LookupAfterAppend | server/EmployeeManagement/EmployeeManagement/Services/ManagerService.cs:34-47 | After a manager with an unregistered e-mail is appended, the lookup of that e-mail finds only that manager |
| ManagerServices.AppendKeepsUnique | server/EmployeeManagement/EmployeeManagement/Services/ManagerService.cs:34-47 | Appending a manager whose e-mail is unregistered keeps manager e-mails unique |
| ManagerServices.ManagerService.RegisterManager | server/EmployeeManagement/EmployeeManagement/Services/ManagerService.cs:32-51 | A registered e-mail gives (false, "Email already exists", null) and changes nothing. Otherwise it appends exactly one manager with the e-mail, full name and hash of the password under a fresh key, and returns (true, "Registration successful", token of that manager). Manager e-mails stay unique, and with a sound hash/verify pair the same credentials then log in |
| SearchTerms.SanitizeSearchTerm | client/employee-manager/src/pages/Dashboard.tsx:52-54 | The output has no `<`, `>`, `{` or `}`. Every other character keeps its count, and the output is a subsequence of the input. The same sanitizer is defined at EmployeeList.tsx:43-45 |
| SearchTerms.SanitizeIdempotent | client/employee-manager/src/pages/EmployeeList.tsx:44 | Sanitizing twice is the same as sanitizing once |
| SearchTerms.SanitizeIdentity | client/employee-manager/src/pages/Dashboard.tsx:53 | A term without any of the four characters comes back unchanged |
| SearchTerms.TrimStart | client/employee-manager/src/pages/Dashboard.tsx:59 | Drops a leading run of white space, and nothing else, so that the result does not start with white space |
| SearchTerms.TrimEnd | client/employee-manager/src/pages/Dashboard.tsx:59 | Drops a trailing run of white space, and nothing else, so that the result does not end with white space |
| SearchTerms.Trim | client/employee-manager/src/pages/Dashboard.tsx:59 | `trim()`: the result is a slice of the input whose cut-off prefix and suffix are white space only, and it neither starts nor ends with white space |
| SearchTerms.TrimEmptyIffWhiteSpace | client/employee-manager/src/pages/Dashboard.tsx:59 | `trim()` gives the empty string exactly when the string is white space only |
| DashboardPage.SearchRequest | client/employee-manager/src/pages/Dashboard.tsx:56-69 | Searches by name, with the untrimmed sanitized term, exactly when the typed value has a character that is neither stripped nor white space. Otherwise it reloads |
| DashboardPage.Dashboard.HandleSearch | client/employee-manager/src/pages/Dashboard.tsx:56-69 | Sets the search box to the sanitized value. Issues the `SearchRequest` and shows its answer |
| EmployeeListPage.SearchRequest | client/employee-manager/src/pages/EmployeeList.tsx:47-57 | Searches by name exactly when some typed character is not stripped. Reloads exactly when sanitizing leaves the empty string |
| EmployeeListPage.EmployeeList.HandleSearch | client/employee-manager/src/pages/EmployeeList.tsx:47-57 | Sets the search box to the sanitized value. Issues the `SearchRequest` and shows its answer |
| EmployeeListPage.ListSearchesWhenDashboardDoes | client/employee-manager/src/pages/EmployeeList.tsx:51-53 | Whenever the dashboard searches for a value, the list searches for it with the same term |
| EmployeeListPage.WhiteSpaceTermDiffers | client/employee-manager/src/pages/EmployeeList.tsx:51-56 | For a single space, the list searches and the dashboard reloads |
| EditEmployeePage.EmptyPasswordPasses | client/employee-manager/src/pages/EditEmployee.tsx:42-51 | A missing or empty password passes both password tests, `PasswordLengthTest` (lines 42-47) and `PasswordCapitalTest` (lines 48-51) |
| EditEmployeePage.TypedPasswordTests | client/employee-manager/src/pages/EditEmployee.tsx:42-51 | A typed password passes the first test, `PasswordLengthTest`, exactly when it has at least 8 characters, and the second, `PasswordCapitalTest`, exactly when it has an `A`–`Z` letter. No digit is required |
| EditEmployeePage.UpdateData | client/employee-manager/src/pages/EditEmployee.tsx:58-64 | The payload always carries the full name and e-mail. It carries a password key exactly when the password box is non-empty, with that password |
| EditEmployeePage.ToUpdateDto | server/EmployeeManagement/EmployeeManager.Core/DTOs/UpdateEmployeeDto.cs:5-18 | The server reads the payload's e-mail and full name, and reads a missing password key as null |
| EditEmployeePage.OnSubmit | client/employee-manager/src/pages/EditEmployee.tsx:53-66 | Does nothing exactly when the route id is absent or empty. Otherwise it sends the `UpdateData` payload for that id |
| EditEmployeePage.SubmittedPasswordRule | client/employee-manager/src/pages/EditEmployee.tsx:58-66 | Submitting with an empty password box keeps the stored hash. A typed password replaces the hash with that password's hash. E-mail and name follow the form |

## Left out

- Hashing, verification and tokens.
  - BCrypt's salting, so that two hashes of one password differ, is not
    modelled. Neither are the JWT claims, signing and expiry
    (AuthService.cs, which is not part of this model).
  - Hashing, verification and token generation are opaque functions of
    `AuthService`.
  - The only law about them is "a password verifies against its own hash".
    It is stated as `Sound()` and required where it is used.
- `ManagerServices.ManagerService.Login`: a manager without a stored hash
  makes BCrypt's verifier throw, which becomes `Failure(Unhandled)`. The
  message of that exception is not modelled.
- The controllers, `Program`/`Startup`, the unit of work and the AutoMapper
  profile are not modelled. This includes how exceptions become HTTP status
  codes, and the claim parsing that yields the caller's manager id. Mapping
  to a DTO is the field-by-field `Models.ToDto`.
- `Include(e => e.Manager)` eager loading is not modelled. It changes no
  row of the result.
- Result order is a modelling choice. No query in the source has an
  `OrderBy`, so the database may return rows in any order. The model returns
  them in key order, which is insertion order. Login's "first manager in
  lookup order" and the order of every list depend on this choice.
- Entity Framework's change tracking is not modelled. The model identifies
  rows by key. Inserting an explicit key and aliasing between tracked
  objects are not modelled.
- `Repositories.EmployeeRepository.Update`,
  `Repositories.EmployeeRepository.Delete`,
  `Repositories.ManagerRepository.Update` and
  `Repositories.ManagerRepository.Delete` require a stored key. Entity
  Framework would throw a concurrency exception otherwise. The services only
  call them with a key they have just read.
- `Repositories.EmployeeRepository.Add` and
  `Repositories.EmployeeRepository.Update` require that the employee's
  manager exists. The database's foreign key would reject the insert or
  the update otherwise. The model does not capture that exception.
- Ids are unbounded integers. The 32-bit overflow of `int` identity columns
  is not modelled.
- String length counts characters rather than UTF-16 code units. No
  culture-sensitive comparison is modelled. `char.IsUpper`,
  `char.IsDigit`, `char.IsWhiteSpace` and `MailAddress` are the parameters
  of `ValidationExtensions.Runtime`.
- Data annotations on the DTOs are not modelled. These include
  `[Required]`, `[EmailAddress]`, `[MinLength]` and the password regular
  expression. Their model-binding checks run in the controller pipeline
  before the services.
- The maximum column length of 100 for e-mails and names is not modelled.
- A null search name is not modelled. Search takes a string.
- Concurrency is not modelled. In particular, two requests can interleave
  between the e-mail check and the insert.
- The asynchronous I/O of the services is not modelled.
- The services' `_logger.LogInformation` calls are not modelled. They only
  write log lines and change no state or result. They are at
  EmployeeService.cs:57, 87, 102, 119, 156 and 191.
- `DashboardPage.Dashboard.HandleSearch` and
  `EmployeeListPage.EmployeeList.HandleSearch` take the server's answers as
  parameters. The loading flag, toasts on failure and the rendering are not
  modelled. The same holds for the rest of the pages, for the client
  services, routing, the Yup schemas and `Register.tsx`.
- `EditEmployeePage.OnSubmit` does not model `Number(id)`, the toast or the
  navigation. `fetchEmployee` is not modelled.
- `LoginDto` is not among the source files. It is modelled as an e-mail and
  a password.
