/** `authenticate_user`: checks a name and password against the member table,
    in a fixed order — empty table, unknown name, the account-status gate that
    Dev accounts bypass, then the password rule of module Credentials. */
module Authentication {
  import opened Common
  import opened Credentials
  import opened Directory

  /** The four-tuple the code returns: (ok, user, role, message). */
  datatype AuthOutcome = AuthOutcome(ok: bool, user: Option<string>, role: Option<string>, message: string)

  function Failure(reason: string): AuthOutcome {
    AuthOutcome(false, None, None, reason)
  }

  /** Status of row i; a table without a Status column counts as "Active". */
  function StatusOf(f: MemberFrame, i: nat): string
    requires i < |f.rows|
  {
    if f.cols.hasStatus then f.rows[i].status else "Active"
  }

  /** Role of row i; a table without a Role column gives "". */
  function RoleOf(f: MemberFrame, i: nat): string
    requires i < |f.rows|
  {
    if f.cols.hasRole then f.rows[i].role else ""
  }

  /** The reason given to a non-Dev account that is not Active. */
  function GateReason(status: string): string {
    if status == "Pending" then "Account pending approval"
    else if status == "Suspended" then "Account suspended"
    else "Account inactive"
  }

  /** `authenticate_user(username, password, members_df)` */
  function Authenticate(username: string, password: string, f: MemberFrame,
                        hash: string -> string): (r: AuthOutcome)
    ensures !r.ok ==> r.user == None && r.role == None
    ensures r.ok ==> r.user == Some(username) && r.role.Some? && r.message == "Success"
    ensures |f.rows| == 0 ==> r == Failure("No users found")
    ensures |f.rows| > 0 && !HasName(f.rows, username) ==> r == Failure("User not found")
    ensures r.ok ==> HasName(f.rows, username)
  {
    if |f.rows| == 0 then Failure("No users found")
    else match FirstNamed(f.rows, username)
      case None => Failure("User not found")
      case Some(i) =>
        var status := StatusOf(f, i);
        var role := RoleOf(f, i);
        if role != "Dev" && status != "Active" then Failure(GateReason(status))
        else if PasswordAccepted(f.cols.hasPassword, f.rows[i].password, password, hash) then
          AuthOutcome(true, Some(username), Some(role), "Success")
        else Failure("Invalid credentials")
  }

  /** A non-Dev account that is not Active is turned away before its password
      is looked at, with a reason chosen by its Status. */
  lemma StatusGate(username: string, password: string, f: MemberFrame, hash: string -> string, i: nat)
    requires FirstNamed(f.rows, username) == Some(i)
    requires RoleOf(f, i) != "Dev" && StatusOf(f, i) != "Active"
    ensures Authenticate(username, password, f, hash) == Failure(GateReason(StatusOf(f, i)))
    ensures GateReason(StatusOf(f, i)) in {"Account pending approval", "Account suspended", "Account inactive"}
  {
  }

  /** Once the gate is passed, login succeeds exactly when the password rule
      accepts; on success the role of the first row of that name is returned. */
  lemma PasswordDecides(username: string, password: string, f: MemberFrame, hash: string -> string, i: nat)
    requires FirstNamed(f.rows, username) == Some(i)
    requires RoleOf(f, i) == "Dev" || StatusOf(f, i) == "Active"
    ensures Authenticate(username, password, f, hash).ok
        <==> PasswordAccepted(f.cols.hasPassword, f.rows[i].password, password, hash)
    ensures Authenticate(username, password, f, hash).ok ==>
              Authenticate(username, password, f, hash)
                == AuthOutcome(true, Some(username), Some(RoleOf(f, i)), "Success")
    ensures !Authenticate(username, password, f, hash).ok ==>
              Authenticate(username, password, f, hash) == Failure("Invalid credentials")
  {
  }

  /** Every successful login is of a member that is a Dev or Active and whose
      password the rule accepts. */
  lemma LoginSound(username: string, password: string, f: MemberFrame, hash: string -> string)
    requires Authenticate(username, password, f, hash).ok
    ensures HasName(f.rows, username)
    ensures var i := FirstNamed(f.rows, username).value;
      && (RoleOf(f, i) == "Dev" || StatusOf(f, i) == "Active")
      && PasswordAccepted(f.cols.hasPassword, f.rows[i].password, password, hash)
      && Authenticate(username, password, f, hash).role == Some(RoleOf(f, i))
  {
  }

  /** Without a Password column, the default password and only it is accepted
      for every account past the gate. */
  lemma DefaultPasswordOnly(username: string, password: string, f: MemberFrame, hash: string -> string, i: nat)
    requires FirstNamed(f.rows, username) == Some(i)
    requires RoleOf(f, i) == "Dev" || StatusOf(f, i) == "Active"
    requires !f.cols.hasPassword
    ensures Authenticate(username, password, f, hash).ok <==> password == DefaultPassword
  {
  }

  /** A stored password written as 64 hex digits with an upper-case digit
      among them never lets anyone in: it is compared against a lower-case
      digest. */
  lemma UpperCaseDigestLocksOut(username: string, password: string, f: MemberFrame,
                                hash: string -> string, i: nat)
    requires FirstNamed(f.rows, username) == Some(i)
    requires f.cols.hasPassword && LooksHashed(f.rows[i].password) && HasUpperHex(f.rows[i].password)
    requires IsDigest(hash(password))
    ensures !Authenticate(username, password, f, hash).ok
  {
    UpperHexNeverVerifies(password, f.rows[i].password, hash);
  }

  /** A stored value that does not look like a digest is a plain-text
      password: only that exact text is accepted. */
  lemma PlainTextRule(username: string, password: string, f: MemberFrame, hash: string -> string, i: nat)
    requires FirstNamed(f.rows, username) == Some(i)
    requires RoleOf(f, i) == "Dev" || StatusOf(f, i) == "Active"
    requires f.cols.hasPassword && !LooksHashed(f.rows[i].password)
    ensures Authenticate(username, password, f, hash).ok <==> password == f.rows[i].password
  {
  }

  /** A Dev account logs in whatever its Status, e.g. while still Pending. */
  lemma DevBypassesGate(username: string, password: string, f: MemberFrame, hash: string -> string, i: nat)
    requires FirstNamed(f.rows, username) == Some(i)
    requires f.cols.hasRole && f.rows[i].role == "Dev"
    requires PasswordAccepted(f.cols.hasPassword, f.rows[i].password, password, hash)
    ensures Authenticate(username, password, f, hash) == AuthOutcome(true, Some(username), Some("Dev"), "Success")
  {
  }
}
