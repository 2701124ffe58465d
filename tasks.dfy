/** The task table of apptest.py: `generate_unique_taskid`, the "Assign Task"
    form's append of a new Pending task, and the in-place status update of
    one task row. */
module Tasks {
  import opened Common

  /** A TaskID cell as pandas holds it: a number, a text ("" for a blank
      sheet cell), or NaN. */
  datatype Cell = Num(n: int) | Text(s: string) | Blank

  datatype Task = Task(taskId: Cell, taskName: string, assignedTo: string, role: string,
                       status: string, deadline: string, priority: string, description: string)

  /** `hasTaskId` says whether the frame has a TaskID column at all. */
  datatype TaskFrame = TaskFrame(hasTaskId: bool, rows: seq<Task>)

  const MinTaskId: int := 100000
  const MaxTaskId: int := 999999

  predicate IsDigit(c: char) {
    '0' <= c <= '9'
  }

  /** Value of a run of decimal digits, most significant first. */
  function DigitsValue(s: string): (v: int)
    requires forall i :: 0 <= i < |s| ==> IsDigit(s[i])
  {
    if |s| == 0 then 0 else DigitsValue(s[..|s| - 1]) * 10 + (s[|s| - 1] as int - '0' as int)
  }

  /** The digit character of d. */
  function Digit(d: nat): (c: char)
    requires d < 10
    ensures IsDigit(c)
  {
    "0123456789"[d]
  }

  /** The decimal text of n, as `str(n)` writes a non-negative integer. */
  function DecimalText(n: nat): (s: string)
    ensures |s| > 0 && IsDigit(s[0])
    ensures forall i :: 0 <= i < |s| ==> IsDigit(s[i])
  {
    if n < 10 then [Digit(n)] else DecimalText(n / 10) + [Digit(n % 10)]
  }

  /** Reading back the decimal text of n gives n. */
  lemma {:induction false} DigitsValueOfDecimalText(n: nat)
    ensures DigitsValue(DecimalText(n)) == n
  {
    var s := DecimalText(n);
    if n >= 10 {
      assert s[..|s| - 1] == DecimalText(n / 10);
      DigitsValueOfDecimalText(n / 10);
    }
  }

  /** The text after an optional leading sign. */
  function Unsigned(s: string): string {
    if |s| > 0 && (s[0] == '-' || s[0] == '+') then s[1..] else s
  }

  /** An optionally signed decimal integer. */
  predicate IsDecimal(s: string) {
    |Unsigned(s)| > 0 && forall i :: 0 <= i < |Unsigned(s)| ==> IsDigit(Unsigned(s)[i])
  }

  /** `pd.to_numeric(cell, errors="coerce")` followed by `dropna()` and
      `astype(int)`, for integer-valued cells: None for what is dropped. */
  function NumericId(t: Task): (r: Option<int>)
    ensures t.taskId.Num? ==> r == Some(t.taskId.n)
    ensures t.taskId.Blank? ==> r == None
    ensures t.taskId.Text? ==> r == TextValue(t.taskId.s) && (r.Some? <==> IsDecimal(t.taskId.s))
  {
    match t.taskId
    case Num(n) => Some(n)
    case Blank => None
    case Text(s) => TextValue(s)
  }

  /** The integer a TaskID text converts to, or None when it is dropped. */
  function TextValue(s: string): (r: Option<int>)
    ensures r.Some? <==> IsDecimal(s)
  {
    if !IsDecimal(s) then None
    else
      var v := DigitsValue(Unsigned(s));
      if s[0] == '-' then Some(-v) else Some(v)
  }

  /** A TaskID written as the text of an integer, with or without a sign,
      counts as that integer. */
  lemma TextIdRoundTrip(n: nat)
    ensures TextValue(DecimalText(n)) == Some(n)
    ensures TextValue("+" + DecimalText(n)) == Some(n)
    ensures TextValue("-" + DecimalText(n)) == Some(-(n as int))
  {
    var d := DecimalText(n);
    DigitsValueOfDecimalText(n);
    SignedTextValue(d, "");
    SignedTextValue(d, "+");
    SignedTextValue(d, "-");
  }

  /** A digit run behind an optional sign is decimal, and its value is the
      run's value, negated for "-". */
  lemma SignedTextValue(d: string, sign: string)
    requires |d| > 0 && forall i :: 0 <= i < |d| ==> IsDigit(d[i])
    requires sign in {"", "+", "-"}
    ensures Unsigned(sign + d) == d && IsDecimal(sign + d)
    ensures (sign + d)[0] == '-' <==> sign == "-"
  {
    if sign == "" {
      assert sign + d == d;
    } else {
      assert (sign + d)[1..] == d;
    }
  }

  /** The set `existing_ids`: the numeric TaskIDs of the frame. */
  function ExistingIds(f: TaskFrame): set<int> {
    if !f.hasTaskId then {}
    else set i | 0 <= i < |f.rows| && NumericId(f.rows[i]).Some? :: NumericId(f.rows[i]).value
  }

  /** No two rows carry the same numeric TaskID. */
  predicate DistinctIds(f: TaskFrame) {
    !f.hasTaskId ||
    forall i, j :: 0 <= i < j < |f.rows| ==> NumericId(f.rows[i]).None? || NumericId(f.rows[i]) != NumericId(f.rows[j])
  }

  /** Whether `generate_unique_taskid` checks its draw against existing IDs:
      only for a non-empty frame with a TaskID column. */
  predicate Tracked(f: TaskFrame) {
    |f.rows| > 0 && f.hasTaskId
  }

  /** `generate_unique_taskid(tasks_df)`. `draws` are the values
      `random.randint(100000, 999999)` returns, in order; the source draws
      until one is fresh, and None stands for running out of draws first. */
  method GenerateUniqueTaskId(f: TaskFrame, draws: seq<int>) returns (id: Option<int>)
    requires forall k :: 0 <= k < |draws| ==> MinTaskId <= draws[k] <= MaxTaskId
    ensures id.Some? ==> MinTaskId <= id.value <= MaxTaskId
    ensures id.Some? ==> id.value !in ExistingIds(f)
    ensures !Tracked(f) ==> id == (if |draws| > 0 then Some(draws[0]) else None)
    ensures Tracked(f) ==> (id.None? <==> forall k :: 0 <= k < |draws| ==> draws[k] in ExistingIds(f))
    ensures Tracked(f) && id.Some? ==>
              exists k :: 0 <= k < |draws| && draws[k] == id.value
                            && forall j :: 0 <= j < k ==> draws[j] in ExistingIds(f)
  {
    if !Tracked(f) {
      assert ExistingIds(f) == {};
      id := if |draws| > 0 then Some(draws[0]) else None;
      return;
    }
    var existing := ExistingIds(f);
    var k := 0;
    while k < |draws|
      invariant 0 <= k <= |draws|
      invariant forall j :: 0 <= j < k ==> draws[j] in existing
    {
      if draws[k] !in existing {
        return Some(draws[k]);
      }
      k := k + 1;
    }
    return None;
  }

  datatype AssignOutcome = MissingFields | NoFreshId | Assigned(id: int, saved: bool)

  /** The draws never give `generate_unique_taskid` a value to return. */
  predicate NoFreshDraw(f: TaskFrame, draws: seq<int>) {
    if Tracked(f) then forall k :: 0 <= k < |draws| ==> draws[k] in ExistingIds(f) else |draws| == 0
  }

  /** The rows of `pd.concat([tasks_df, new_row])`: a frame without a TaskID
      column gains one, empty in the old rows. */
  function Appended(f: TaskFrame, t: Task): TaskFrame {
    if f.hasTaskId then TaskFrame(true, f.rows + [t])
    else TaskFrame(true, seq(|f.rows|, j requires 0 <= j < |f.rows| => f.rows[j].(taskId := Blank)) + [t])
  }

  lemma AppendedIds(f: TaskFrame, t: Task, id: int)
    requires t.taskId == Num(id)
    ensures ExistingIds(Appended(f, t)) == ExistingIds(f) + {id}
    ensures DistinctIds(f) && id !in ExistingIds(f) ==> DistinctIds(Appended(f, t))
  {
    var g := Appended(f, t);
    var n := |f.rows|;
    assert g.rows[n] == t;
    forall j | 0 <= j < n ensures NumericId(g.rows[j]) == (if f.hasTaskId then NumericId(f.rows[j]) else None) {
    }
    forall x | x in ExistingIds(g) ensures x in ExistingIds(f) + {id} {
      var j :| 0 <= j < |g.rows| && NumericId(g.rows[j]).Some? && NumericId(g.rows[j]).value == x;
      if j < n {
        assert NumericId(f.rows[j]).Some? && NumericId(f.rows[j]).value == x;
      }
    }
    forall x | x in ExistingIds(f) + {id} ensures x in ExistingIds(g) {
      if x != id {
        var j :| 0 <= j < |f.rows| && NumericId(f.rows[j]).Some? && NumericId(f.rows[j]).value == x;
        assert NumericId(g.rows[j]) == NumericId(f.rows[j]);
      }
    }
    if DistinctIds(f) && id !in ExistingIds(f) {
      forall i, j | 0 <= i < j < |g.rows|
        ensures NumericId(g.rows[i]).None? || NumericId(g.rows[i]) != NumericId(g.rows[j])
      {
        if j == n && NumericId(g.rows[i]).Some? {
          assert NumericId(g.rows[i]).value in ExistingIds(f);
        }
      }
    }
  }

  /** The "Assign Task" form once submitted: with a name, an assignee and a
      description it draws a fresh TaskID and appends a Pending task whose
      Role is the assigner's; `saved` is the result of the sheet write. */
  method AssignTask(f: TaskFrame, taskName: string, assignedTo: string, assignerRole: string,
                    deadline: string, priority: string, description: string,
                    draws: seq<int>, saved: bool) returns (outcome: AssignOutcome, next: TaskFrame)
    requires forall k :: 0 <= k < |draws| ==> MinTaskId <= draws[k] <= MaxTaskId
    ensures taskName == "" || assignedTo == "" || description == "" ==> outcome == MissingFields
    ensures taskName != "" && assignedTo != "" && description != "" ==>
              (outcome.NoFreshId? <==> NoFreshDraw(f, draws)) && !outcome.MissingFields?
    ensures !outcome.Assigned? ==> next == f
    ensures outcome.Assigned? ==>
      && MinTaskId <= outcome.id <= MaxTaskId
      && outcome.id !in ExistingIds(f)
      && outcome.saved == saved
      && next.hasTaskId
      && |next.rows| == |f.rows| + 1
      && next.rows[|f.rows|]
         == Task(Num(outcome.id), taskName, assignedTo, assignerRole, "Pending", deadline, priority, description)
      && (f.hasTaskId ==> next.rows[..|f.rows|] == f.rows)
      && (!f.hasTaskId ==> forall j :: 0 <= j < |f.rows| ==> next.rows[j] == f.rows[j].(taskId := Blank))
      && ExistingIds(next) == ExistingIds(f) + {outcome.id}
      && (DistinctIds(f) ==> DistinctIds(next))
  {
    if taskName == "" || assignedTo == "" || description == "" {
      return MissingFields, f;
    }
    var id := GenerateUniqueTaskId(f, draws);
    if id.None? {
      return NoFreshId, f;
    }
    var t := Task(Num(id.value), taskName, assignedTo, assignerRole, "Pending", deadline, priority, description);
    next := Appended(f, t);
    AppendedIds(f, t, id.value);
    outcome := Assigned(id.value, saved);
  }

  /** The first row whose TaskID equals `taskId`; a NaN cell equals
      nothing, and without a TaskID column there is no row to find. */
  function FirstTaskIndex(f: TaskFrame, taskId: Cell): (r: Option<nat>)
    ensures r.Some? ==> r.value < |f.rows| && f.rows[r.value].taskId == taskId && !taskId.Blank?
    ensures r.Some? ==> forall j :: 0 <= j < r.value ==> f.rows[j].taskId != taskId
    ensures r.None? <==> !f.hasTaskId || taskId.Blank? || forall j :: 0 <= j < |f.rows| ==> f.rows[j].taskId != taskId
  {
    if !f.hasTaskId || taskId.Blank? then None
    else FirstWhere(f.rows, (t: Task) => t.taskId == taskId)
  }

  /** Writing a Status keeps the TaskIDs, so it keeps them distinct. */
  lemma StatusWriteKeepsIds(f: TaskFrame, i: nat, status: string)
    requires i < |f.rows|
    ensures var g := f.(rows := f.rows[i := f.rows[i].(status := status)]);
      ExistingIds(g) == ExistingIds(f) && (DistinctIds(f) <==> DistinctIds(g))
  {
    var g := f.(rows := f.rows[i := f.rows[i].(status := status)]);
    assert forall j :: 0 <= j < |f.rows| ==> NumericId(g.rows[j]) == NumericId(f.rows[j]);
  }

  /** The tasks table a request works on. */
  class TaskTable {
    var frame: TaskFrame

    constructor (f: TaskFrame)
      ensures frame == f
    {
      frame := f;
    }

    /** `tasks_df.at[task_idx, "Status"] = new_status` followed by the sheet
      write: only the Status of the first row with that TaskID changes.
      Where the source raises (no such row) the model changes nothing and
      reports failure. */
    method UpdateStatus(taskId: Cell, newStatus: string, saved: bool) returns (ok: bool)
      modifies this
      ensures FirstTaskIndex(old(frame), taskId).None? ==> !ok && frame == old(frame)
      ensures FirstTaskIndex(old(frame), taskId).Some? ==>
        var i := FirstTaskIndex(old(frame), taskId).value;
        && frame == old(frame).(rows := old(frame.rows)[i := old(frame.rows)[i].(status := newStatus)])
        && ok == saved
    {
      var found := FirstTaskIndex(frame, taskId);
      if found.None? {
        return false;
      }
      var i := found.value;
      frame := frame.(rows := frame.rows[i := frame.rows[i].(status := newStatus)]);
      ok := saved;
    }
  }
}
