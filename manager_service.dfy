/**
 * Manager registration and login. Registration refuses an e-mail some
 * manager already has; login looks the e-mail up and accepts the first
 * manager whose stored hash verifies the password.
 */
module ManagerServices {
  import opened Wrappers
  import opened Seqs
  import opened Models
  import opened Credentials
  import opened Data
  import opened Repositories

  const RegistrationSuccessful := "Registration successful"
  const LoginSuccessful := "Login successful"

  /** The `(success, message, token)` triple both operations return; a null token is `None`. */
  datatype AuthResponse = AuthResponse(success: bool, message: string, token: Option<string>)

  /** Some manager in `ms` has e-mail `email`. */
  ghost predicate EmailRegistered(ms: seq<Manager>, email: string)
  {
    exists m :: m in ms && m.email == email
  }

  /** No two managers share an e-mail. */
  ghost predicate UniqueEmails(ms: seq<Manager>)
  {
    forall i, j :: 0 <= i < j < |ms| ==> ms[i].email != ms[j].email
  }

  /** The manager's stored hash is present and verifies `password`. */
  predicate Verifies(auth: AuthService, password: string, m: Manager)
  {
    m.passwordHash.Some? && auth.verifyPassword(password, m.passwordHash.value)
  }

  /** The manager's stored hash is present and does not verify `password`. */
  predicate Rejects(auth: AuthService, password: string, m: Manager)
  {
    m.passwordHash.Some? && !auth.verifyPassword(password, m.passwordHash.value)
  }

  /**
   * The login's `FirstOrDefault` over the managers found for one e-mail:
   * walks `c` in order, skips managers whose hash rejects the password,
   * answers with a token for the first whose hash verifies it, and faults
   * (the verifier throws on a null hash) on a manager without a hash.
   */
  function LoginAmong(auth: AuthService, password: string, c: seq<Manager>): (r: Result<AuthResponse>)
    ensures r == Success(AuthResponse(false, InvalidCredentials, None)) <==>
              forall m :: m in c ==> Rejects(auth, password, m)
    ensures r.Success? && r.value.success ==>
              exists i :: 0 <= i < |c| && Verifies(auth, password, c[i])
                && (forall j :: 0 <= j < i ==> Rejects(auth, password, c[j]))
                && r.value == AuthResponse(true, LoginSuccessful, Some(auth.generateJwtToken(c[i])))
    ensures r.Failure? ==>
              && r.error == Unhandled
              && exists i :: 0 <= i < |c| && c[i].passwordHash.None?
                   && (forall j :: 0 <= j < i ==> Rejects(auth, password, c[j]))
    ensures r.Success? ==> r.value.success || r.value == AuthResponse(false, InvalidCredentials, None)
    decreases |c|
  {
    if c == [] then Success(AuthResponse(false, InvalidCredentials, None))
    else if c[0].passwordHash.None? then assert c[0] in c; Failure(Unhandled)
    else if auth.verifyPassword(password, c[0].passwordHash.value) then
      assert c[0] in c;
      Success(AuthResponse(true, LoginSuccessful, Some(auth.generateJwtToken(c[0]))))
    else
      var r := LoginAmong(auth, password, c[1..]);
      assert forall m :: m in c <==> m == c[0] || m in c[1..];
      assert r.Success? && r.value.success ==>
        exists i :: 0 <= i < |c| && Verifies(auth, password, c[i])
          && (forall j :: 0 <= j < i ==> Rejects(auth, password, c[j]))
          && r.value == AuthResponse(true, LoginSuccessful, Some(auth.generateJwtToken(c[i]))) by {
        if r.Success? && r.value.success {
          var i :| 0 <= i < |c[1..]| && Verifies(auth, password, c[1..][i])
            && (forall j :: 0 <= j < i ==> Rejects(auth, password, c[1..][j]))
            && r.value == AuthResponse(true, LoginSuccessful, Some(auth.generateJwtToken(c[1..][i])));
          assert forall j :: 0 <= j < i + 1 ==> Rejects(auth, password, c[j]) by {
            forall j | 0 <= j < i + 1 ensures Rejects(auth, password, c[j]) {
              if j > 0 { assert c[j] == c[1..][j - 1]; }
            }
          }
          assert c[i + 1] == c[1..][i];
        }
      }
      assert r.Failure? ==>
        exists i :: 0 <= i < |c| && c[i].passwordHash.None?
          && (forall j :: 0 <= j < i ==> Rejects(auth, password, c[j])) by {
        if r.Failure? {
          var i :| 0 <= i < |c[1..]| && c[1..][i].passwordHash.None?
            && (forall j :: 0 <= j < i ==> Rejects(auth, password, c[1..][j]));
          assert forall j :: 0 <= j < i + 1 ==> Rejects(auth, password, c[j]) by {
            forall j | 0 <= j < i + 1 ensures Rejects(auth, password, c[j]) {
              if j > 0 { assert c[j] == c[1..][j - 1]; }
            }
          }
          assert c[i + 1] == c[1..][i];
        }
      }
      r
  }

  /**
   * A manager stored with the hash of `password` is the only one found for
   * its e-mail after registration; with a sound hash/verify pair that lookup
   * logs in with a token for that manager.
   */
  lemma SoleRegisteredLogsIn(auth: AuthService, password: string, m: Manager)
    requires auth.Sound()
    requires m.passwordHash == Some(auth.hashPassword(password))
    ensures LoginAmong(auth, password, [m])
            == Success(AuthResponse(true, LoginSuccessful, Some(auth.generateJwtToken(m))))
  {
    assert auth.verifyPassword(password, auth.hashPassword(password));
  }

  /** After appending a manager with an unregistered e-mail, the lookup of that e-mail finds only it. */
  lemma {:induction false} LookupAfterAppend(before: seq<Manager>, m: Manager)
    requires !EmailRegistered(before, m.email)
    ensures Filter(before + [m], (x: Manager) => x.email == m.email) == [m]
  {
    var byEmail := (x: Manager) => x.email == m.email;
    FilterAppend(before, m, byEmail);
  }

  /** Appending a manager with an unregistered e-mail keeps e-mails unique. */
  lemma AppendKeepsUnique(before: seq<Manager>, m: Manager)
    requires UniqueEmails(before) && !EmailRegistered(before, m.email)
    ensures UniqueEmails(before + [m])
  {
    var after := before + [m];
    forall i, j | 0 <= i < j < |after| ensures after[i].email != after[j].email {
      if j == |before| {
        assert after[i] in before;
      }
    }
  }

  class ManagerService {
    const managers: ManagerRepository
    const auth: AuthService

    constructor (managers: ManagerRepository, auth: AuthService)
      ensures this.managers == managers && this.auth == auth
    {
      this.managers := managers;
      this.auth := auth;
    }

    ghost predicate Valid()
      reads managers.context
    {
      managers.context.Valid()
    }

    /** The Managers table. */
    function Managers(): (t: seq<Manager>)
      reads managers.context
    {
      managers.context.managers
    }

    /**
     * `Login`: among the managers with the given e-mail, in table order, the
     * first one whose hash verifies the password gets a token. None matching
     * gives "Invalid credentials". A manager without a hash reached before
     * any verifying one makes the verifier throw, which is `Failure(Unhandled)`.
     */
    function Login(dto: LoginDto): (r: Result<AuthResponse>)
      reads managers.context
      ensures r == LoginAmong(auth, dto.password, managers.GetByEmail(dto.email))
      ensures r.Success? && r.value.success ==>
                exists m :: m in Managers() && m.email == dto.email && Verifies(auth, dto.password, m)
                  && r.value.token == Some(auth.generateJwtToken(m))
      ensures (forall m :: m in Managers() && m.email == dto.email ==> Rejects(auth, dto.password, m)) ==>
                r == Success(AuthResponse(false, InvalidCredentials, None))
    {
      LoginAmong(auth, dto.password, managers.GetByEmail(dto.email))
    }

    /**
     * `RegisterManager`: refuses an e-mail some manager already has and
     * changes nothing; otherwise stores one manager with the request's
     * e-mail, full name and the hash of its password under a fresh key, and
     * returns a token for that stored manager. Unique manager e-mails stay
     * unique, and with a sound hash/verify pair the same credentials then log in.
     */
    method RegisterManager(dto: RegisterManagerDto, guid: Guid, now: Timestamp) returns (r: AuthResponse)
      requires Valid()
      modifies managers.context
      ensures Valid()
      ensures EmailRegistered(old(Managers()), dto.email) ==>
                r == AuthResponse(false, EmailAlreadyExists, None) && unchanged(managers.context)
      ensures !EmailRegistered(old(Managers()), dto.email) ==>
                var m := Manager(old(managers.context.nextManagerId), guid, dto.email,
                                 Some(auth.hashPassword(dto.password)), dto.fullName, now);
                && m.id !in ManagerIds(old(Managers()))
                && Managers() == old(Managers()) + [m]
                && managers.context.employees == old(managers.context.employees)
                && r == AuthResponse(true, RegistrationSuccessful, Some(auth.generateJwtToken(m)))
                && (auth.Sound() ==>
                      Login(LoginDto(dto.email, dto.password)) == Success(AuthResponse(true, LoginSuccessful, r.token)))
      ensures UniqueEmails(old(Managers())) ==> UniqueEmails(Managers())
    {
      var existing := managers.GetByEmail(dto.email);
      if |existing| > 0 {
        assert existing[0] in existing;
        return AuthResponse(false, EmailAlreadyExists, None);
      }
      assert !EmailRegistered(Managers(), dto.email);
      ghost var before := Managers();

      var manager := Manager(0, guid, dto.email, Some(auth.hashPassword(dto.password)), dto.fullName, now);
      var added := managers.Add(manager);
      var token := auth.generateJwtToken(added);
      r := AuthResponse(true, RegistrationSuccessful, Some(token));

      LookupAfterAppend(before, added);
      assert managers.GetByEmail(dto.email) == [added];
      if auth.Sound() {
        SoleRegisteredLogsIn(auth, dto.password, added);
      }
      if UniqueEmails(before) {
        AppendKeepsUnique(before, added);
      }
    }
  }
}
