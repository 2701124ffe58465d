/** The role-hierarchy resolver `get_subordinates`: the names a member may
    assign tasks to, found by filtering the member table on Role, on
    Status == "Active" and, where the table has them, on the Domain and
    ReportsTo columns. */
module Hierarchy {
  import opened Common
  import opened Directory

  /** The roles that have anyone below them. */
  predicate AssigningRole(role: string) {
    role == "Dev" || role == "Core Head" || role == "Domain Head" || role == "Associate Head"
  }

  /** The boolean mask `get_subordinates` applies for requester `me` (whose
      name is `requester`) to a candidate row `m`. */
  predicate Assignable(cols: Columns, me: Member, requester: string, m: Member) {
    && m.status == "Active"
    && if me.role == "Dev" then true
       else if me.role == "Core Head" then m.role == "Domain Head" || m.role == "Core Head"
       else if me.role == "Domain Head" then
         m.role == "Associate Head" && (cols.hasDomain ==> me.domain.Some? && m.domain == me.domain)
       else if me.role == "Associate Head" then
         m.role == "Junior Head" && (cols.hasReportsTo ==> m.reportsTo == Some(requester))
       else false
  }

  /** `df[mask]["Name"].tolist()`: the names of the rows the mask keeps. */
  function AssignableNames(rows: seq<Member>, cols: Columns, me: Member, requester: string): (r: seq<string>)
    ensures |r| <= |rows|
    ensures forall n :: n in r ==>
                exists k :: 0 <= k < |rows| && rows[k].name == n && Assignable(cols, me, requester, rows[k])
    ensures forall k :: 0 <= k < |rows| && Assignable(cols, me, requester, rows[k]) ==> rows[k].name in r
  {
    if |rows| == 0 then []
    else
      var rest := AssignableNames(rows[1..], cols, me, requester);
      assert forall k :: 1 <= k < |rows| ==> rows[k] == rows[1..][k - 1];
      if Assignable(cols, me, requester, rows[0]) then [rows[0].name] + rest else rest
  }

  /** The names come out in table order: the filter distributes over
      concatenating two tables. */
  lemma {:induction false} AssignableNamesAppend(a: seq<Member>, b: seq<Member>, cols: Columns,
                                                 me: Member, requester: string)
    ensures AssignableNames(a + b, cols, me, requester)
         == AssignableNames(a, cols, me, requester) + AssignableNames(b, cols, me, requester)
  {
    if |a| == 0 {
      assert a + b == b;
    } else {
      assert (a + b)[0] == a[0];
      assert (a + b)[1..] == a[1..] + b;
      AssignableNamesAppend(a[1..], b, cols, me, requester);
    }
  }

  /** `get_subordinates(member_name, members_df)`. An empty table, an unknown
      name, a missing Role or Status column (the KeyError the code catches),
      and any role other than the four assigning ones all give []. */
  function Subordinates(memberName: string, f: MemberFrame): (r: seq<string>)
    ensures |f.rows| == 0 || !HasName(f.rows, memberName) ==> r == []
    ensures forall n :: n in r ==>
                exists k :: 0 <= k < |f.rows| && f.rows[k].name == n && f.rows[k].status == "Active"
    ensures |r| <= |f.rows|
  {
    if |f.rows| == 0 then []
    else match FirstNamed(f.rows, memberName)
      case None => []
      case Some(i) =>
        if !f.cols.hasRole || !f.cols.hasStatus || !AssigningRole(f.rows[i].role) then []
        else AssignableNames(f.rows, f.cols, f.rows[i], memberName)
  }

  /** Position in the hierarchy Dev > Core Head > Domain Head > Associate Head
      > Junior Head; 0 for any other role. */
  function Rank(role: string): nat {
    if role == "Dev" then 5
    else if role == "Core Head" then 4
    else if role == "Domain Head" then 3
    else if role == "Associate Head" then 2
    else if role == "Junior Head" then 1
    else 0
  }

  /** The cases in which `get_subordinates` returns []. */
  lemma NoSubordinates(memberName: string, f: MemberFrame)
    requires || |f.rows| == 0
             || !HasName(f.rows, memberName)
             || !f.cols.hasRole
             || !f.cols.hasStatus
             || !AssigningRole(f.rows[FirstNamed(f.rows, memberName).value].role)
    ensures Subordinates(memberName, f) == []
  {
  }

  /** A Dev may assign to every Active member, itself included. */
  lemma DevSubordinates(memberName: string, f: MemberFrame, i: nat)
    requires FirstNamed(f.rows, memberName) == Some(i)
    requires f.cols.hasRole && f.cols.hasStatus && f.rows[i].role == "Dev"
    ensures forall k :: 0 <= k < |f.rows| && f.rows[k].status == "Active" ==>
      f.rows[k].name in Subordinates(memberName, f)
    ensures f.rows[i].status == "Active" ==> memberName in Subordinates(memberName, f)
  {
  }

  /** A Core Head may assign to exactly the Active Domain Heads and Core Heads. */
  lemma CoreHeadSubordinates(memberName: string, f: MemberFrame, i: nat)
    requires FirstNamed(f.rows, memberName) == Some(i)
    requires f.cols.hasRole && f.cols.hasStatus && f.rows[i].role == "Core Head"
    ensures forall k :: 0 <= k < |f.rows| && f.rows[k].status == "Active"
                && (f.rows[k].role == "Domain Head" || f.rows[k].role == "Core Head")
                ==> f.rows[k].name in Subordinates(memberName, f)
    ensures forall n :: n in Subordinates(memberName, f) ==>
                exists k :: 0 <= k < |f.rows| && f.rows[k].name == n && f.rows[k].status == "Active"
                  && (f.rows[k].role == "Domain Head" || f.rows[k].role == "Core Head")
  {
  }

  /** A Domain Head may assign to exactly the Active Associate Heads, and with
      a Domain column only to those whose Domain equals its own. */
  lemma DomainHeadSubordinates(memberName: string, f: MemberFrame, i: nat)
    requires FirstNamed(f.rows, memberName) == Some(i)
    requires f.cols.hasRole && f.cols.hasStatus && f.rows[i].role == "Domain Head"
    ensures forall k :: 0 <= k < |f.rows| && f.rows[k].status == "Active"
                && f.rows[k].role == "Associate Head"
                && (f.cols.hasDomain ==> f.rows[i].domain.Some? && f.rows[k].domain == f.rows[i].domain)
                ==> f.rows[k].name in Subordinates(memberName, f)
    ensures forall n :: n in Subordinates(memberName, f) ==>
                exists k :: 0 <= k < |f.rows| && f.rows[k].name == n && f.rows[k].status == "Active"
                  && f.rows[k].role == "Associate Head"
                  && (f.cols.hasDomain ==> f.rows[k].domain == f.rows[i].domain != None)
  {
  }

  /** An Associate Head may assign to exactly the Active Junior Heads, and with
      a ReportsTo column only to those that report to it. */
  lemma AssociateHeadSubordinates(memberName: string, f: MemberFrame, i: nat)
    requires FirstNamed(f.rows, memberName) == Some(i)
    requires f.cols.hasRole && f.cols.hasStatus && f.rows[i].role == "Associate Head"
    ensures forall k :: 0 <= k < |f.rows| && f.rows[k].status == "Active"
                && f.rows[k].role == "Junior Head"
                && (f.cols.hasReportsTo ==> f.rows[k].reportsTo == Some(memberName))
                ==> f.rows[k].name in Subordinates(memberName, f)
    ensures forall n :: n in Subordinates(memberName, f) ==>
                exists k :: 0 <= k < |f.rows| && f.rows[k].name == n && f.rows[k].status == "Active"
                  && f.rows[k].role == "Junior Head"
                  && (f.cols.hasReportsTo ==> f.rows[k].reportsTo == Some(memberName))
  {
  }

  /** Below Dev, tasks only flow one step down the hierarchy, except that
      Core Heads may also assign to other Core Heads; members with a role
      outside the hierarchy are never anyone's subordinate but a Dev's. */
  lemma HierarchyRespected(memberName: string, f: MemberFrame, n: string)
    requires n in Subordinates(memberName, f)
    requires f.rows[FirstNamed(f.rows, memberName).value].role != "Dev"
    ensures exists k :: 0 <= k < |f.rows| && f.rows[k].name == n && f.rows[k].status == "Active"
                && 1 <= Rank(f.rows[k].role)
                && (|| Rank(f.rows[k].role) + 1 == Rank(f.rows[FirstNamed(f.rows, memberName).value].role)
                  || f.rows[k].role == f.rows[FirstNamed(f.rows, memberName).value].role == "Core Head")
  {
    var i := FirstNamed(f.rows, memberName).value;
    var me := f.rows[i];
    var k :| 0 <= k < |f.rows| && f.rows[k].name == n && Assignable(f.cols, me, memberName, f.rows[k]);
    assert f.rows[k].status == "Active";
  }

  /** Appending a row that is not Active (a pending registration) changes no
      existing member's subordinate list. */
  lemma AppendInactiveKeepsTeams(memberName: string, f: MemberFrame, m: Member)
    requires HasName(f.rows, memberName)
    requires m.status != "Active"
    ensures Subordinates(memberName, f.(rows := f.rows + [m])) == Subordinates(memberName, f)
  {
    var g := f.(rows := f.rows + [m]);
    FirstNamedExtended(f.rows, [m], memberName);
    var i := FirstNamed(f.rows, memberName).value;
    assert g.rows[i] == f.rows[i];
    AssignableNamesAppend(f.rows, [m], f.cols, f.rows[i], memberName);
    assert AssignableNames([m], f.cols, f.rows[i], memberName) == [];
  }
}
