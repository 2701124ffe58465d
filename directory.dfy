/** The member directory: the in-memory Members table (`members_df`) that every
    operation of apptest.py reads, one row per member, in sheet order. */
module Directory {
  import opened Common

  /** Which optional columns the table carries. The Name column is always
      present (the loader creates it). The code branches on Role, Status and
      Password being present, and on the Domain and ReportsTo columns that
      only some sheets have. */
  datatype Columns = Columns(hasRole: bool, hasPassword: bool, hasStatus: bool,
                             hasDomain: bool, hasReportsTo: bool)

  /** One row. `domain` and `reportsTo` are None where the cell is NaN, which
      compares unequal to everything; a blank cell read from the sheet is
      Some(""). */
  datatype Member = Member(name: string, role: string, password: string, status: string,
                           approvedBy: string, createdAt: string,
                           domain: Option<string>, reportsTo: Option<string>)

  datatype MemberFrame = MemberFrame(cols: Columns, rows: seq<Member>)

  /** The columns of a frame built from one freshly registered row. */
  const StandardColumns: Columns := Columns(true, true, true, false, false)

  /** The columns the loader always supplies; the writers are called on such frames. */
  predicate Loaded(c: Columns) {
    c.hasRole && c.hasPassword && c.hasStatus
  }

  /** `name in members_df["Name"].values` */
  predicate HasName(rows: seq<Member>, name: string) {
    exists i :: 0 <= i < |rows| && rows[i].name == name
  }

  /** First row whose Name equals `name` (`members_df[members_df["Name"] == name]`,
      first element). */
  function FirstNamed(rows: seq<Member>, name: string): (r: Option<nat>)
    ensures r.Some? ==> r.value < |rows| && rows[r.value].name == name
    ensures r.Some? ==> forall j :: 0 <= j < r.value ==> rows[j].name != name
    ensures r.None? <==> !HasName(rows, name)
  {
    FirstWhere(rows, (m: Member) => m.name == name)
  }

  /** Names are the table's key: no two rows share one. */
  predicate UniqueNames(rows: seq<Member>) {
    forall i, j :: 0 <= i < j < |rows| ==> rows[i].name != rows[j].name
  }

  /** Appending rows after an existing name does not move its first row. */
  lemma FirstNamedExtended(rows: seq<Member>, more: seq<Member>, name: string)
    requires HasName(rows, name)
    ensures FirstNamed(rows + more, name) == FirstNamed(rows, name)
  {
    var i := FirstNamed(rows, name).value;
    assert (rows + more)[i] == rows[i];
  }

  /** Two tables whose rows carry the same names, position by position. */
  predicate SameNames(a: seq<Member>, b: seq<Member>) {
    |a| == |b| && forall j :: 0 <= j < |a| ==> a[j].name == b[j].name
  }

  /** A write that leaves every Name alone does not move any first row. */
  lemma FirstNamedSameNames(a: seq<Member>, b: seq<Member>, name: string)
    requires SameNames(a, b)
    ensures FirstNamed(a, name) == FirstNamed(b, name)
    ensures UniqueNames(a) <==> UniqueNames(b)
  {
    if HasName(a, name) {
      var i := FirstNamed(a, name).value;
      assert b[i].name == name;
      var j := FirstNamed(b, name).value;
      assert a[j].name == name;
    }
  }
}
