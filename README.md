# Club administration core, modelled in Dafny

This project models the administration core of a small club management tool
(`apptest.py`). The tool is a web front end over two spreadsheet tables:
Members and Tasks. The core modelled here is the part that works on the
in-memory copies of those tables:

- the **role-hierarchy resolver** (`get_subordinates`): who a member may assign tasks to;
- **authentication** (`authenticate_user`): the status gate, which Dev accounts bypass, and the three-way password rule (digest, plain text, default password);
- the **membership lifecycle**: `register_user` with its bootstrap-Dev rule, `approve_user` (only the parent Dev approves Devs), `suspend_user`, `reactivate_user`, `update_user_role`, `delete_user`, and the "Reset Member Status" action;
- **tasks**: `generate_unique_taskid`, the append done by the "Assign Task" form, and the in-place status update of one task.

Modules, one per component:

- `Common` (common.dfy): `Option`, and `FirstWhere`, the "first row of a boolean mask" lookup (`df[mask].index[0]`).
- `Credentials` (credentials.dfy): digests, the "looks hashed" test and the password rule.
- `Directory` (directory.dfy): the `Member` row, the column flags, `MemberFrame`, and lookup by name.
- `Hierarchy` (hierarchy.dfy): `Subordinates`.
- `Authentication` (authentication.dfy): `Authenticate`.
- `Lifecycle` (lifecycle.dfy): the functions `Register`, `Delete` and `ResetStatuses`. It also holds the class `MemberTable`, whose methods write one cell in place as `members_df.at[...] = ...` does.
- `Tasks` (tasks.dfy): the `GenerateUniqueTaskId` and `AssignTask` methods, and the class `TaskTable`, whose `UpdateStatus` writes one Status cell in place.

How the outside world is represented:

- **SHA-256** is the parameter `hash: string -> string`. Facts that depend on the shape of a digest require `IsDigest(hash(password))`: 64 lower-case hex characters.
- **The sheet write** (`update_members_sheet_optimized`, `update_tasks_sheet_optimized`) is the boolean parameter `saved`. A write that fails but reports "Response [200]" is part of that boolean.
- **`random.randint(100000, 999999)`** is the parameter `draws`: the values it would return, in order.
- **The `datetime.now()` timestamp** (CreatedAt) is the string parameter `now`.
- **Column presence** is the `Columns` record. The code branches on whether the Role, Status, Password, Domain and ReportsTo columns exist, and so does the model.
- **Blank cells and NaN are different things.**
  - A blank cell read from the sheet is the empty text: `Some("")` for Domain and ReportsTo, `Text("")` for TaskID. `get_all_records` (apptest.py:101, 108) gives "" for a blank cell. So it equals every other blank cell, in a mask as anywhere else.
  - `None` (Domain, ReportsTo) and `Blank` (TaskID) stand for the NaN that `pd.concat` (apptest.py:288, 946) puts in a column the appended row lacks. It exists only in memory and compares equal to nothing. The next sheet write turns it into the text "nan" (apptest.py:72, 87). Reading that text back is outside this model.

Two behaviours of the source are modelled as written:

- The message branch at apptest.py:293-294 cannot be reached. The frame tested there already holds the new row. So a first Dev is Active, yet is told that approval is awaited (`RegisterMessage`).
- A Dev account logs in whatever its Status (`DevBypassesGate`). So does a second Dev that is still Pending.

## Model

| member | source | states |
|---|---|---|
| Credentials.VerifyPassword | apptest.py:61-63 | A password verifies only against a value as long as its digest. If the digest has the 64-lower-hex shape, the value it matches passes the "looks hashed" test. |
| Credentials.DigestLooksHashed | apptest.py:242 | Every value `hash_password` produces passes the 64-hex test of `authenticate_user`. |
| Credentials.UpperHexNeverVerifies | apptest.py:57-63 | No password verifies against a stored value that contains an upper-case hex digit, because digests are lower-case. |
| Credentials.StoredDigestRule | apptest.py:239-244 | For a stored digest, the password rule accepts exactly the candidates with that digest. |
| Hierarchy.AssignableNames | apptest.py:170-210 | The names returned are exactly the names of the rows the role mask keeps: every kept row's name is in the result, and each result name belongs to a kept row. |
| Hierarchy.AssignableNamesAppend | apptest.py:170-210 | The filter keeps table order: filtering two concatenated tables gives the two filtered lists concatenated. |
| Hierarchy.Subordinates | apptest.py:158-216 | An empty table or an unknown name gives []. Every returned name belongs to a row whose Status is "Active". The result is never longer than the table. |
| Hierarchy.NoSubordinates | apptest.py:160-216 | [] in every fall-through case: empty table, unknown name, missing Role or Status column (the caught KeyError), or a role that is not one of the four assigning roles. |
| Hierarchy.DevSubordinates | apptest.py:169-171 | A Dev gets every Active member, itself included when Active. |
| Hierarchy.CoreHeadSubordinates | apptest.py:173-179 | A Core Head gets exactly the Active Domain Heads and Core Heads. |
| Hierarchy.DomainHeadSubordinates | apptest.py:181-195 | A Domain Head gets exactly the Active Associate Heads. With a Domain column, only those whose Domain equals its own, and none when its own Domain is NaN (`None`). A blank Domain (`Some("")`) matches the Associate Heads whose Domain is blank too. |
| Hierarchy.AssociateHeadSubordinates | apptest.py:197-210 | An Associate Head gets exactly the Active Junior Heads. With a ReportsTo column, only those that report to it. |
| Hierarchy.HierarchyRespected | apptest.py:158-216 | Below Dev, tasks go exactly one rank down the hierarchy Dev > Core Head > Domain Head > Associate Head > Junior Head. The one exception is Core Head to Core Head. |
| Hierarchy.AppendInactiveKeepsTeams | apptest.py:158-216 | Appending a row that is not Active leaves every existing member's subordinate list unchanged. |
| Authentication.Authenticate | apptest.py:218-254 | Every failure is (False, None, None, reason). Success is (True, username, role, "Success"). An empty table gives "No users found" and an unknown name gives "User not found". Success implies the name is present. |
| Authentication.StatusGate | apptest.py:227-237 | A non-Dev that is not Active is refused before any password check. The reason is "Account pending approval", "Account suspended" or "Account inactive", chosen by its Status. A missing Status column counts as "Active" and a missing Role column as "". |
| Authentication.PasswordDecides | apptest.py:239-254 | Once past the gate, login succeeds exactly when the password rule accepts. On success the role of the first row with that name is returned. Otherwise the reason is "Invalid credentials". |
| Authentication.LoginSound | apptest.py:218-254 | Every successful login is for a present name that is a Dev or Active, and whose password the rule accepts. |
| Authentication.DefaultPasswordOnly | apptest.py:249-252 | Without a Password column, login succeeds exactly for "password123". |
| Authentication.UpperCaseDigestLocksOut | apptest.py:242-244 | A stored 64-hex value with an upper-case digit passes the hex test but never matches a digest, so nobody logs in against it. |
| Authentication.PlainTextRule | apptest.py:245-248 | A stored value that does not look hashed is compared as plain text: only that exact text logs in. |
| Authentication.DevBypassesGate | apptest.py:231 | A Dev with an accepted password logs in whatever its Status. |
| Lifecycle.Register | apptest.py:256-300 | A name already present gives (False, "User already exists.") and the table is unchanged. Otherwise exactly one row is appended after the unchanged old rows. It carries the name, the role and hash(password). Its Status/ApprovedBy is Active/System only for a Dev registering into an empty table, and Pending/"" in every other case. ok equals the write result, and a failed write gives "Error saving user.". |
| Lifecycle.RegisterKeepsNamesUnique | apptest.py:283-288 | Registration keeps names unique. |
| Lifecycle.BootstrapDev | apptest.py:261-265 | The first Dev, registered into an empty table, is Active and approved by "System". It is the parent Dev, it logs in with its password, and its subordinate list is just itself. |
| Lifecycle.PendingRegistration | apptest.py:266-272 | Any later registration is Pending with no approver. It does not change the parent Dev, and it does not change any existing member's subordinate list. |
| Lifecycle.PendingCannotLogIn | apptest.py:270-272 | A non-Dev registered into a non-empty table is refused with "Account pending approval", whatever password it tries. |
| Lifecycle.OnlyParentApprovesDevs | apptest.py:309-316 | First Dev A registers, then Dev B. Approving B is permitted for approver A and for nobody else. |
| Lifecycle.ApprovedCanLogIn | apptest.py:317-319 | Once approved, a member whose stored password is the digest of its password logs in with that password and gets its role back. |
| Lifecycle.RegisterApproveLogIn | apptest.py:256-326 | A non-Dev registers, is refused as pending, may be approved by anyone, and then logs in. |
| Lifecycle.Without | apptest.py:357 | The rows kept are exactly the rows whose Name differs. An absent name leaves the table as it was. |
| Lifecycle.WithoutAppend | apptest.py:357 | Deletion keeps the other rows in table order: it distributes over concatenation. |
| Lifecycle.Delete | apptest.py:354-364 | No row of that name remains. Every other row remains and nothing new appears. The columns are unchanged. Deleting an absent name is not an error, and ok equals the write result. |
| Lifecycle.WithoutKeepsNamesUnique | apptest.py:357 | Deletion keeps names unique. |
| Lifecycle.DeletedIsGone | apptest.py:354-364 | After deletion the name can neither log in nor appear in anyone's subordinate list. |
| Lifecycle.ParentDev | apptest.py:311-312 | The parent Dev is the name of the first row with Role "Dev" and ApprovedBy "System". No earlier row has both. There is none exactly when no such row exists. |
| Lifecycle.MemberTable.Approve | apptest.py:302-326 | An absent name gives False with the IndexError message and no change. A Dev target approved by anyone other than the parent Dev gives "Only the parent Dev can approve new Devs." and no change. Otherwise only the first row of that name changes, and only its Status (to Active) and ApprovedBy (to the approver). The change stays in memory when the write fails. |
| Lifecycle.MemberTable.Suspend | apptest.py:328-339 | Only the Status of the first row of that name changes, to "Suspended". An absent name gives False and no change. |
| Lifecycle.MemberTable.Reactivate | apptest.py:341-352 | Only the Status of the first row of that name changes, to "Active". An absent name gives False and no change. |
| Lifecycle.MemberTable.UpdateRole | apptest.py:366-377 | Only the Role of the first row of that name changes, to the new role. An absent name gives False and no change. |
| Lifecycle.MemberTable.SetAllActive | apptest.py:793 | The Status column exists afterwards and is "Active" in every row. The other fields are unchanged. |
| Lifecycle.ResetMemberStatus | apptest.py:790-797 | The frame written is a copy in which every Status is "Active" and every other field is unchanged. The caller's table is untouched. ok equals the write result. |
| Lifecycle.SuspendedLeavesEveryTeam | apptest.py:328-339 | In a table with unique names, a suspended member is in nobody's subordinate list. |
| Lifecycle.SuspendAndReactivate | apptest.py:328-352 | A suspended non-Dev is refused with "Account suspended". After reactivation, login again depends only on the password. |
| Lifecycle.RoleChangeSeenAtLogin | apptest.py:366-377 | After a role change, login reports the new role, and names stay unique. |
| Lifecycle.ResetOpensGate | apptest.py:790-797 | After a reset, every member's login depends only on the password, and a Dev may assign to every member. |
| Tasks.NumericId | apptest.py:383 | A numeric TaskID counts as itself, and a NaN one (`Blank`) is dropped. A text TaskID counts exactly when it is a signed or unsigned decimal integer, and it counts as the value `TextValue` gives it. |
| Tasks.TextValue | apptest.py:383 | A text converts exactly when it is an optionally signed run of decimal digits. |
| Tasks.TextIdRoundTrip | apptest.py:383 | The decimal text of any n, bare or with a "+" sign, converts back to n. With a "-" sign it converts to -n. So every integer has a text form that counts as exactly that integer in the set of IDs in use. |
| Tasks.DigitsValueOfDecimalText | apptest.py:383 | Reading back the decimal digits of n gives n. |
| Tasks.GenerateUniqueTaskId | apptest.py:379-387 | The ID is in [100000, 999999] and is none of the numeric TaskIDs present. For an empty table or one without a TaskID column it is the first draw. Otherwise it is the first draw not in use, and there is none exactly when every draw is in use. |
| Tasks.AppendedIds | apptest.py:943-946 | Appending a task with numeric ID n adds exactly n to the set of IDs in use. If n was fresh, the IDs stay distinct. |
| Tasks.AssignTask | apptest.py:929-946 | A missing name, assignee or description adds nothing. Otherwise exactly one task is appended after the unchanged old rows. It has a fresh ID in range, Status "Pending", and the assigner's role. The IDs in use grow by exactly that ID, and distinct IDs stay distinct, so later tasks never reuse it. |
| Tasks.FirstTaskIndex | apptest.py:902 | The first row whose TaskID equals the given one. A NaN TaskID (`Blank`), or a missing TaskID column, finds nothing. A blank text TaskID (`Text("")`) finds the first other blank one. |
| Tasks.StatusWriteKeepsIds | apptest.py:902-903 | Writing a task's Status changes neither the set of IDs in use nor whether they are distinct. |
| Tasks.TaskTable.UpdateStatus | apptest.py:901-903 | Only the Status of the first row with that TaskID changes. When there is no such row, nothing changes and the result is failure. |

## Left out

- Streamlit pages, forms, session state and routing (`show_*`, `main`) are user interface. The UI restricts the assignee to `get_subordinates` and only offers Pending members for approval. The model does not enforce either; neither does the core code.
- Google Sheets access, credentials and the connection test are network and file I/O. Each write is the boolean `saved`. Lost updates between concurrent whole-sheet overwrites are concurrency and are outside a sequential model.
- `load_data_cached` is left out: its 30-second cache, its column defaulting and its timestamp are I/O, time and caching.
- The "Clear All Tasks" action (apptest.py:779-787) only writes an empty Tasks sheet, so it is pure I/O.
- The Name column is taken to be present. The loader always creates it. A table without it would raise in `authenticate_user`.
- Lifecycle.MemberTable.Approve, Lifecycle.MemberTable.Suspend, Lifecycle.MemberTable.Reactivate, Lifecycle.MemberTable.UpdateRole and Lifecycle.Register require the Role, Password and Status columns. The loader always supplies them. Writing a cell into a missing column, which pandas does by creating the column filled with NaN, is not modelled.
- Lifecycle.MemberTable.Approve and the other error paths: the exception text is fixed to the IndexError for a missing row. Other exceptions inside the `try` blocks are not modelled.
- Tasks.GenerateUniqueTaskId: `draws` is finite. When every draw is in use the model returns None, where the source keeps drawing forever (or until a fresh value comes).
- Tasks.NumericId: only integer text converts. Float or exponent text counts as non-numeric, although `to_numeric` accepts it and `astype(int)` truncates it. So does text with spaces around the digits (" 123456 "), which `to_numeric` also accepts.
- Tasks.TaskTable.UpdateStatus: where the source raises an uncaught IndexError (no matching TaskID), the model reports failure and changes nothing.
- Row labels are taken to be 0..n-1 and unique, as the loader produces them. So `.at[index[0], ...]` writes the first matching row.
- `str.lower` is modelled on ASCII only. No other character lower-cases to a hex digit, so the hex test is exact.
- Cell values are strings, except TaskID. Numeric conversion of other cells, as `get_all_records` does it, is not modelled.
