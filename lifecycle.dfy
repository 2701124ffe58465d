/** The membership lifecycle of apptest.py. `register_user` and `delete_user`
    build a new frame and leave the caller's alone, so they are functions;
    `approve_user`, `suspend_user`, `reactivate_user` and `update_user_role`
    write one cell of the caller's frame in place, so they are methods of
    the class MemberTable, which stands for that mutable frame. Every
    operation ends by overwriting the Members sheet; whether that write
    succeeded is the parameter `saved`. */
module Lifecycle {
  import opened Common
  import opened Credentials
  import opened Directory
  import opened Hierarchy
  import opened Authentication

  /** The text of the IndexError raised by `.index[0]` on an empty selection. */
  const NoSuchRow: string := "index 0 is out of bounds for axis 0 with size 0"

  /** `(success, message)` and the frame the operation built and handed to
      the sheet writer (the input frame when nothing was built). */
  datatype Outcome = Outcome(ok: bool, message: string, frame: MemberFrame)

  /** Status and ApprovedBy of a new registration: only a Dev registering
      into an empty table is let in at once, approved by "System". */
  function InitialApproval(role: string, tableEmpty: bool): (string, string) {
    if role == "Dev" && tableEmpty then ("Active", "System") else ("Pending", "")
  }

  function NewMember(name: string, password: string, role: string, tableEmpty: bool,
                     hash: string -> string, now: string): Member
  {
    var (status, approvedBy) := InitialApproval(role, tableEmpty);
    Member(name, role, hash(password), status, approvedBy, now, None, None)
  }

  /** The message after the sheet write. The frame tested for emptiness is
      the one that already holds the new row, so a first Dev is also told
      that approval is awaited. */
  function RegisterMessage(role: string, saved: bool): string {
    if !saved then "Error saving user."
    else if role == "Dev" then "Dev registration submitted! Awaiting approval by the parent Dev."
    else "Registration successful! Your account is pending approval by a Dev."
  }

  /** `register_user(name, password, role, members_df)`; `now` is the
      CreatedAt timestamp. */
  function Register(name: string, password: string, role: string, f: MemberFrame,
                    hash: string -> string, now: string, saved: bool): (r: Outcome)
    requires Loaded(f.cols)
    ensures HasName(f.rows, name) ==> r == Outcome(false, "User already exists.", f)
    ensures !HasName(f.rows, name) ==>
      && Loaded(r.frame.cols)
      && |r.frame.rows| == |f.rows| + 1
      && r.frame.rows[..|f.rows|] == f.rows
      && r.frame.rows[|f.rows|].name == name
      && r.frame.rows[|f.rows|].role == role
      && r.frame.rows[|f.rows|].password == hash(password)
      && (r.frame.rows[|f.rows|].status, r.frame.rows[|f.rows|].approvedBy)
         == (if role == "Dev" && |f.rows| == 0 then ("Active", "System") else ("Pending", ""))
      && r.ok == saved
      && (!saved ==> r.message == "Error saving user.")
  {
    var m := NewMember(name, password, role, |f.rows| == 0, hash, now);
    if |f.rows| == 0 then
      Outcome(saved, RegisterMessage(role, saved), MemberFrame(StandardColumns, [m]))
    else if HasName(f.rows, name) then
      Outcome(false, "User already exists.", f)
    else
      Outcome(saved, RegisterMessage(role, saved), f.(rows := f.rows + [m]))
  }

  /** The rows of a table without those named `name`, in their order. */
  function Without(rows: seq<Member>, name: string): (r: seq<Member>)
    ensures |r| <= |rows|
    ensures forall m :: m in r <==> m in rows && m.name != name
    ensures !HasName(rows, name) ==> r == rows
  {
    if |rows| == 0 then []
    else
      var rest := Without(rows[1..], name);
      assert rows == [rows[0]] + rows[1..];
      if rows[0].name == name then rest else [rows[0]] + rest
  }

  /** Removal keeps the other rows in table order: it distributes over
      concatenating two tables. */
  lemma {:induction false} WithoutAppend(a: seq<Member>, b: seq<Member>, name: string)
    ensures Without(a + b, name) == Without(a, name) + Without(b, name)
  {
    if |a| == 0 {
      assert a + b == b;
    } else {
      assert (a + b)[0] == a[0];
      assert (a + b)[1..] == a[1..] + b;
      WithoutAppend(a[1..], b, name);
    }
  }

  /** `delete_user(user_name, members_df)`: every row of that name goes, the
      others stay; deleting an absent name is not an error. */
  function Delete(userName: string, f: MemberFrame, saved: bool): (r: Outcome)
    ensures r.ok == saved
    ensures r.frame.cols == f.cols
    ensures !HasName(r.frame.rows, userName)
    ensures forall m :: m in f.rows && m.name != userName ==> m in r.frame.rows
    ensures forall m :: m in r.frame.rows ==> m in f.rows
    ensures !HasName(f.rows, userName) ==> r.frame == f
  {
    var g := f.(rows := Without(f.rows, userName));
    if saved then Outcome(true, "User " + userName + " deleted successfully!", g)
    else Outcome(false, "Error deleting user.", g)
  }

  /** A Dev approved by "System": the bootstrap Dev. */
  predicate IsSystemDev(m: Member) {
    m.role == "Dev" && m.approvedBy == "System"
  }

  /** Name of the parent Dev: the first row with Role "Dev" approved by
      "System". */
  function ParentDev(rows: seq<Member>): (r: Option<string>)
    ensures r.Some? ==>
              exists k :: 0 <= k < |rows| && rows[k].name == r.value
                            && rows[k].role == "Dev" && rows[k].approvedBy == "System"
                            && forall j :: 0 <= j < k ==> !(rows[j].role == "Dev" && rows[j].approvedBy == "System")
    ensures r.None? <==> forall k :: 0 <= k < |rows| ==> !(rows[k].role == "Dev" && rows[k].approvedBy == "System")
  {
    match FirstWhere(rows, IsSystemDev)
    case None => None
    case Some(k) => Some(rows[k].name)
  }

  /** The row as `approve_user` leaves it. */
  function Approved(m: Member, approver: string): Member {
    m.(status := "Active", approvedBy := approver)
  }

  /** Who may approve the first row named by `approve_user`: anyone for a
      non-Dev, only the parent Dev for a Dev. */
  predicate MayApprove(rows: seq<Member>, i: nat, approver: string)
    requires i < |rows|
  {
    rows[i].role != "Dev" || ParentDev(rows) == Some(approver)
  }

  /** `members_df.copy()` with the Status column set to "Active" everywhere
      (the "Reset Member Status" action). */
  function ResetStatuses(f: MemberFrame): MemberFrame {
    MemberFrame(f.cols.(hasStatus := true),
                seq(|f.rows|, j requires 0 <= j < |f.rows| => f.rows[j].(status := "Active")))
  }

  /** The members table a request works on; the four operations below write
      one cell of it in place, as `members_df.at[idx, column] = value` does,
      so the caller sees the change even when the sheet write fails. */
  class MemberTable {
    var frame: MemberFrame

    constructor (f: MemberFrame)
      ensures frame == f
    {
      frame := f;
    }

    /** `approve_user(user_name, members_df, approver_name)` */
    method Approve(userName: string, approver: string, saved: bool) returns (ok: bool, message: string)
      requires Loaded(frame.cols)
      modifies this
      ensures frame.cols == old(frame.cols)
      ensures !HasName(old(frame.rows), userName) ==>
        !ok && frame == old(frame) && message == "Error approving user: " + NoSuchRow
      ensures HasName(old(frame.rows), userName) ==>
        var i := FirstNamed(old(frame.rows), userName).value;
        if MayApprove(old(frame.rows), i, approver) then
          && frame.rows == old(frame.rows)[i := Approved(old(frame.rows)[i], approver)]
          && ok == saved
          && message == (if saved then "User " + userName + " approved successfully!"
                         else "Error updating user status.")
        else
          !ok && frame == old(frame) && message == "Only the parent Dev can approve new Devs."
    {
      var found := FirstNamed(frame.rows, userName);
      if found.None? {
        return false, "Error approving user: " + NoSuchRow;
      }
      var i := found.value;
      if frame.rows[i].role == "Dev" {
        var parent := ParentDev(frame.rows);
        if !(parent.Some? && approver == parent.value) {
          return false, "Only the parent Dev can approve new Devs.";
        }
      }
      frame := frame.(rows := frame.rows[i := Approved(frame.rows[i], approver)]);
      if saved {
        ok, message := true, "User " + userName + " approved successfully!";
      } else {
        ok, message := false, "Error updating user status.";
      }
    }

    /** `suspend_user(user_name, members_df)` */
    method Suspend(userName: string, saved: bool) returns (ok: bool, message: string)
      requires Loaded(frame.cols)
      modifies this
      ensures frame.cols == old(frame.cols)
      ensures !HasName(old(frame.rows), userName) ==>
        !ok && frame == old(frame) && message == "Error suspending user: " + NoSuchRow
      ensures HasName(old(frame.rows), userName) ==>
        var i := FirstNamed(old(frame.rows), userName).value;
        && frame.rows == old(frame.rows)[i := old(frame.rows)[i].(status := "Suspended")]
        && ok == saved
        && message == (if saved then "User " + userName + " suspended successfully!"
                       else "Error suspending user.")
    {
      var found := FirstNamed(frame.rows, userName);
      if found.None? {
        return false, "Error suspending user: " + NoSuchRow;
      }
      var i := found.value;
      frame := frame.(rows := frame.rows[i := frame.rows[i].(status := "Suspended")]);
      if saved {
        ok, message := true, "User " + userName + " suspended successfully!";
      } else {
        ok, message := false, "Error suspending user.";
      }
    }

    /** `reactivate_user(user_name, members_df)` */
    method Reactivate(userName: string, saved: bool) returns (ok: bool, message: string)
      requires Loaded(frame.cols)
      modifies this
      ensures frame.cols == old(frame.cols)
      ensures !HasName(old(frame.rows), userName) ==>
        !ok && frame == old(frame) && message == "Error reactivating user: " + NoSuchRow
      ensures HasName(old(frame.rows), userName) ==>
        var i := FirstNamed(old(frame.rows), userName).value;
        && frame.rows == old(frame.rows)[i := old(frame.rows)[i].(status := "Active")]
        && ok == saved
        && message == (if saved then "User " + userName + " reactivated successfully!"
                       else "Error reactivating user.")
    {
      var found := FirstNamed(frame.rows, userName);
      if found.None? {
        return false, "Error reactivating user: " + NoSuchRow;
      }
      var i := found.value;
      frame := frame.(rows := frame.rows[i := frame.rows[i].(status := "Active")]);
      if saved {
        ok, message := true, "User " + userName + " reactivated successfully!";
      } else {
        ok, message := false, "Error reactivating user.";
      }
    }

    /** `update_user_role(user_name, new_role, members_df)` */
    method UpdateRole(userName: string, newRole: string, saved: bool) returns (ok: bool, message: string)
      requires Loaded(frame.cols)
      modifies this
      ensures frame.cols == old(frame.cols)
      ensures !HasName(old(frame.rows), userName) ==>
        !ok && frame == old(frame) && message == "Error updating user role: " + NoSuchRow
      ensures HasName(old(frame.rows), userName) ==>
        var i := FirstNamed(old(frame.rows), userName).value;
        && frame.rows == old(frame.rows)[i := old(frame.rows)[i].(role := newRole)]
        && ok == saved
        && message == (if saved then "User " + userName + "'s role updated to " + newRole + "!"
                       else "Error updating user role.")
    {
      var found := FirstNamed(frame.rows, userName);
      if found.None? {
        return false, "Error updating user role: " + NoSuchRow;
      }
      var i := found.value;
      frame := frame.(rows := frame.rows[i := frame.rows[i].(role := newRole)]);
      if saved {
        ok, message := true, "User " + userName + "'s role updated to " + newRole + "!";
      } else {
        ok, message := false, "Error updating user role.";
      }
    }

    /** `members_copy["Status"] = "Active"`: one write to the whole column. */
    method SetAllActive()
      modifies this
      ensures frame == ResetStatuses(old(frame))
    {
      frame := ResetStatuses(frame);
    }
  }

  /** The "Reset Member Status" action: the statuses of a copy are reset and
      the copy is written to the sheet; the caller's table is untouched. */
  method ResetMemberStatus(members: MemberTable, saved: bool) returns (ok: bool, written: MemberFrame)
    ensures ok == saved
    ensures written.cols == members.frame.cols.(hasStatus := true)
    ensures |written.rows| == |members.frame.rows|
    ensures forall j :: 0 <= j < |written.rows| ==> written.rows[j] == members.frame.rows[j].(status := "Active")
  {
    var copy := new MemberTable(members.frame);
    copy.SetAllActive();
    written := copy.frame;
    ok := saved;
  }

  // ---------------------------------------------------------------------
  // Properties of the lifecycle, stated on the functions above and on the
  // row updates the class methods promise.
  // ---------------------------------------------------------------------

  /** Registration never introduces a second row with the same name. */
  lemma RegisterKeepsNamesUnique(name: string, password: string, role: string, f: MemberFrame,
                                 hash: string -> string, now: string, saved: bool)
    requires Loaded(f.cols)
    requires UniqueNames(f.rows)
    ensures UniqueNames(Register(name, password, role, f, hash, now, saved).frame.rows)
  {
    var g := Register(name, password, role, f, hash, now, saved).frame;
    if !HasName(f.rows, name) {
      forall i, j | 0 <= i < j < |g.rows| ensures g.rows[i].name != g.rows[j].name {
        if j < |f.rows| {
          assert g.rows[i] == f.rows[i] && g.rows[j] == f.rows[j];
        } else {
          assert g.rows[i] == f.rows[i];
        }
      }
    }
  }

  /** The first Dev, registered into an empty table, is Active, is the
      parent Dev, logs in with its password and may assign to itself. */
  lemma BootstrapDev(name: string, password: string, f: MemberFrame,
                     hash: string -> string, now: string, saved: bool)
    requires Loaded(f.cols) && |f.rows| == 0
    requires IsDigest(hash(password))
    ensures var g := Register(name, password, "Dev", f, hash, now, saved).frame;
      && |g.rows| == 1
      && g.rows[0].status == "Active" && g.rows[0].approvedBy == "System"
      && ParentDev(g.rows) == Some(name)
      && Authenticate(name, password, g, hash) == AuthOutcome(true, Some(name), Some("Dev"), "Success")
      && Subordinates(name, g) == [name]
  {
    var g := Register(name, password, "Dev", f, hash, now, saved).frame;
    assert FirstNamed(g.rows, name) == Some(0);
    DigestLooksHashed(hash(password));
    assert AssignableNames(g.rows[1..], g.cols, g.rows[0], name) == [];
  }

  /** Every later registration is Pending with no approver: the parent Dev
      stays who it was, and no existing member's subordinate list changes. */
  lemma PendingRegistration(name: string, password: string, role: string, f: MemberFrame,
                            hash: string -> string, now: string, saved: bool, requester: string)
    requires Loaded(f.cols) && |f.rows| > 0 && !HasName(f.rows, name)
    ensures var g := Register(name, password, role, f, hash, now, saved).frame;
      && g.rows[|f.rows|].status == "Pending" && g.rows[|f.rows|].approvedBy == ""
      && ParentDev(g.rows) == ParentDev(f.rows)
      && (HasName(f.rows, requester) ==> Subordinates(requester, g) == Subordinates(requester, f))
  {
    var m := NewMember(name, password, role, false, hash, now);
    assert Register(name, password, role, f, hash, now, saved).frame == f.(rows := f.rows + [m]);
    ParentDevExtended(f.rows, m);
    if HasName(f.rows, requester) {
      AppendInactiveKeepsTeams(requester, f, m);
    }
  }

  /** A non-Dev that registered into a non-empty table is refused at login as
      pending, whatever the password. */
  lemma PendingCannotLogIn(name: string, password: string, role: string, f: MemberFrame,
                           hash: string -> string, now: string, saved: bool, attempt: string)
    requires Loaded(f.cols) && |f.rows| > 0 && !HasName(f.rows, name) && role != "Dev"
    ensures Authenticate(name, attempt, Register(name, password, role, f, hash, now, saved).frame, hash)
         == Failure("Account pending approval")
  {
    var m := NewMember(name, password, role, false, hash, now);
    var g := f.(rows := f.rows + [m]);
    assert Register(name, password, role, f, hash, now, saved).frame == g;
    assert g.rows[|f.rows|] == m;
    assert FirstNamed(g.rows, name) == Some(|f.rows|);
  }

  /** A row appended without the "System" approval of a Dev does not change
      who the parent Dev is. */
  lemma ParentDevExtended(rows: seq<Member>, m: Member)
    requires !IsSystemDev(m)
    ensures ParentDev(rows + [m]) == ParentDev(rows)
  {
    FirstWhereExtended(rows, [m], IsSystemDev);
  }

  /** The Dev approval rule, end to end: after a first Dev A and a second Dev
      B have registered, B's approval is permitted for approver A and for no
      one else. */
  lemma OnlyParentApprovesDevs(a: string, pa: string, b: string, pb: string, f: MemberFrame,
                               hash: string -> string, now: string, approver: string)
    requires Loaded(f.cols) && |f.rows| == 0 && a != b
    ensures var g1 := Register(a, pa, "Dev", f, hash, now, true).frame;
      var g2 := Register(b, pb, "Dev", g1, hash, now, true).frame;
      && |g2.rows| == 2 && FirstNamed(g2.rows, b) == Some(1)
      && (MayApprove(g2.rows, 1, approver) <==> approver == a)
  {
    var g1 := Register(a, pa, "Dev", f, hash, now, true).frame;
    var g2 := Register(b, pb, "Dev", g1, hash, now, true).frame;
    assert g1.rows[0].name == a;
    assert FirstNamed(g2.rows, b) == Some(1);
    assert ParentDev(g2.rows) == Some(a);
  }

  /** An approved member logs in with the password it registered with,
      whatever its role, and gets its role back. */
  lemma ApprovedCanLogIn(name: string, password: string, f: MemberFrame, hash: string -> string,
                         approver: string, i: nat)
    requires Loaded(f.cols)
    requires FirstNamed(f.rows, name) == Some(i)
    requires f.rows[i].password == hash(password) && IsDigest(hash(password))
    ensures var g := f.(rows := f.rows[i := Approved(f.rows[i], approver)]);
      Authenticate(name, password, g, hash) == AuthOutcome(true, Some(name), Some(f.rows[i].role), "Success")
  {
    var g := f.(rows := f.rows[i := Approved(f.rows[i], approver)]);
    FirstNamedSameNames(f.rows, g.rows, name);
    DigestLooksHashed(hash(password));
  }

  /** The scenario register-then-approve: a non-Dev registered into a
      non-empty table is refused as pending, may be approved by anyone, and
      once approved logs in with its password. */
  lemma RegisterApproveLogIn(name: string, password: string, role: string, f: MemberFrame,
                             hash: string -> string, now: string, approver: string)
    requires Loaded(f.cols) && |f.rows| > 0 && !HasName(f.rows, name) && role != "Dev"
    requires IsDigest(hash(password))
    ensures var g := Register(name, password, role, f, hash, now, true).frame;
      var i := |f.rows|;
      && Authenticate(name, password, g, hash) == Failure("Account pending approval")
      && MayApprove(g.rows, i, approver)
      && Authenticate(name, password, g.(rows := g.rows[i := Approved(g.rows[i], approver)]), hash).ok
  {
    var m := NewMember(name, password, role, false, hash, now);
    var g := f.(rows := f.rows + [m]);
    assert Register(name, password, role, f, hash, now, true).frame == g;
    PendingCannotLogIn(name, password, role, f, hash, now, true, password);
    assert g.rows[|f.rows|] == m;
    assert FirstNamed(g.rows, name) == Some(|f.rows|);
    ApprovedCanLogIn(name, password, g, hash, approver, |f.rows|);
  }

  /** A suspended member drops out of every subordinate list. */
  lemma SuspendedLeavesEveryTeam(name: string, f: MemberFrame, i: nat, requester: string)
    requires UniqueNames(f.rows)
    requires FirstNamed(f.rows, name) == Some(i)
    ensures name !in Subordinates(requester, f.(rows := f.rows[i := f.rows[i].(status := "Suspended")]))
  {
    var g := f.(rows := f.rows[i := f.rows[i].(status := "Suspended")]);
    FirstNamedSameNames(f.rows, g.rows, name);
  }

  /** A suspended non-Dev is refused with "Account suspended", whatever the
      password; reactivating lets the right password in again. */
  lemma SuspendAndReactivate(name: string, password: string, f: MemberFrame, hash: string -> string, i: nat)
    requires Loaded(f.cols)
    requires FirstNamed(f.rows, name) == Some(i) && f.rows[i].role != "Dev"
    ensures Authenticate(name, password, f.(rows := f.rows[i := f.rows[i].(status := "Suspended")]), hash)
         == Failure("Account suspended")
    ensures Authenticate(name, password, f.(rows := f.rows[i := f.rows[i].(status := "Active")]), hash).ok
        <==> PasswordAccepted(true, f.rows[i].password, password, hash)
  {
    FirstNamedSameNames(f.rows, f.rows[i := f.rows[i].(status := "Suspended")], name);
    FirstNamedSameNames(f.rows, f.rows[i := f.rows[i].(status := "Active")], name);
  }

  /** A role change is what the next login reports, and keeps names unique. */
  lemma RoleChangeSeenAtLogin(name: string, password: string, newRole: string, f: MemberFrame,
                              hash: string -> string, i: nat)
    requires Loaded(f.cols)
    requires FirstNamed(f.rows, name) == Some(i)
    requires newRole == "Dev" || f.rows[i].status == "Active"
    requires PasswordAccepted(true, f.rows[i].password, password, hash)
    ensures var g := f.(rows := f.rows[i := f.rows[i].(role := newRole)]);
      && Authenticate(name, password, g, hash) == AuthOutcome(true, Some(name), Some(newRole), "Success")
      && (UniqueNames(f.rows) ==> UniqueNames(g.rows))
  {
    FirstNamedSameNames(f.rows, f.rows[i := f.rows[i].(role := newRole)], name);
  }

  /** After deletion the name can neither log in nor be assigned tasks, and
      the remaining names stay unique. */
  lemma DeletedIsGone(name: string, password: string, f: MemberFrame, hash: string -> string,
                      saved: bool, requester: string)
    ensures var g := Delete(name, f, saved).frame;
      && !Authenticate(name, password, g, hash).ok
      && name !in Subordinates(requester, g)
      && (UniqueNames(f.rows) ==> UniqueNames(g.rows))
  {
    if UniqueNames(f.rows) {
      WithoutKeepsNamesUnique(f.rows, name);
    }
  }

  lemma {:induction false} WithoutKeepsNamesUnique(rows: seq<Member>, name: string)
    requires UniqueNames(rows)
    ensures UniqueNames(Without(rows, name))
  {
    if |rows| > 0 {
      var rest := Without(rows[1..], name);
      WithoutKeepsNamesUnique(rows[1..], name);
      if rows[0].name != name {
        forall j | 0 <= j < |rest| ensures rest[j].name != rows[0].name {
          assert rest[j] in rows[1..];
        }
      }
    }
  }

  /** After "Reset Member Status" every member passes the status gate, and a
      Dev may assign to every member. */
  lemma ResetOpensGate(name: string, password: string, f: MemberFrame, hash: string -> string, k: nat)
    requires HasName(f.rows, name)
    ensures Authenticate(name, password, ResetStatuses(f), hash).ok
        <==> PasswordAccepted(f.cols.hasPassword, f.rows[FirstNamed(f.rows, name).value].password, password, hash)
    ensures f.cols.hasRole && f.rows[FirstNamed(f.rows, name).value].role == "Dev" && k < |f.rows| ==>
              f.rows[k].name in Subordinates(name, ResetStatuses(f))
  {
    var g := ResetStatuses(f);
    FirstNamedSameNames(f.rows, g.rows, name);
    var i := FirstNamed(f.rows, name).value;
    assert g.rows[i].password == f.rows[i].password;
    if f.cols.hasRole && f.rows[i].role == "Dev" && k < |f.rows| {
      assert Assignable(g.cols, g.rows[i], name, g.rows[k]);
    }
  }
}
