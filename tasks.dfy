/** The task handlers: two reads over the `tasks` table (list and get by id)
    and three writes (create, partial update, delete). Listing and every
    access by id are scoped to the caller's own rows by a `userId = ?`
    condition; create inserts for the caller and reads its new row back by
    id alone. */
module Tasks {
  import opened Common
  import opened Schema
  import Validation

  const NotFound := HttpError(404, "Tarefa não encontrada")
  const NothingToUpdate := HttpError(400, "Nenhum campo para atualizar fornecido")
  const CreateFailed := HttpError(500, "Erro ao criar tarefa")
  const UpdateFailed := HttpError(500, "Erro ao atualizar tarefa")

  // ---------------------------------------------------------------------------
  // SELECT

  /** One condition of a WHERE clause. */
  datatype Cond = UserIdIs(userId: int) | IdIs(id: int) | StatusIs(status: Status)

  predicate Holds(c: Cond, t: Task) {
    match c
    case UserIdIs(u) => t.userId == u
    case IdIs(i) => t.id == i
    case StatusIs(s) => t.status == Some(s)
  }

  /** A row satisfies a WHERE clause when it satisfies each of its ANDed conditions. */
  predicate Matches(where: seq<Cond>, t: Task) {
    forall i :: 0 <= i < |where| ==> Holds(where[i], t)
  }

  /** The condition `id = ? AND userId = ?` every single-row statement uses. */
  function ByIdAndOwner(id: int, userId: int): seq<Cond> {
    [IdIs(id), UserIdIs(userId)]
  }

  /** `SELECT * FROM tasks WHERE ...`, in table order: each matching row as
      often as it occurs, every other row not at all. */
  function Select(rows: seq<Task>, where: seq<Cond>): (r: seq<Task>)
    ensures forall t :: multiset(r)[t] == if Matches(where, t) then multiset(rows)[t] else 0
    ensures forall t :: t in r <==> t in rows && Matches(where, t)
  {
    if rows == [] then []
    else
      assert rows == [rows[0]] + rows[1..];
      var rest := Select(rows[1..], where);
      if Matches(where, rows[0]) then [rows[0]] + rest else rest
  }

  /** Position of the first row satisfying the WHERE clause, or |rows| when none does. */
  function FirstIndex(rows: seq<Task>, where: seq<Cond>): (k: nat)
    ensures k <= |rows|
    ensures k < |rows| ==> Matches(where, rows[k])
    ensures forall j :: 0 <= j < k ==> !Matches(where, rows[j])
  {
    if rows == [] then 0
    else if Matches(where, rows[0]) then 0
    else 1 + FirstIndex(rows[1..], where)
  }

  /** `db.get`: the first row satisfying the WHERE clause, if any. */
  function First(rows: seq<Task>, where: seq<Cond>): (r: Option<Task>)
    ensures r.Some? <==> exists i :: 0 <= i < |rows| && Matches(where, rows[i])
    ensures r.Some? ==> r.value in rows && Matches(where, r.value)
  {
    if rows == [] then None
    else if Matches(where, rows[0]) then Some(rows[0])
    else
      var r := First(rows[1..], where);
      assert forall i :: 1 <= i < |rows| ==> rows[i] == rows[1..][i - 1];
      r
  }

  /** The row `db.get` returns is the one at the first matching position. */
  lemma {:induction false} FirstAtFirstIndex(rows: seq<Task>, where: seq<Cond>)
    ensures var k := FirstIndex(rows, where);
      First(rows, where) == if k < |rows| then Some(rows[k]) else None
  {
    if rows != [] && !Matches(where, rows[0]) {
      FirstAtFirstIndex(rows[1..], where);
    }
  }

  lemma MatchesOwner(userId: int, t: Task)
    ensures Matches([UserIdIs(userId)], t) <==> t.userId == userId
  {
    assert [UserIdIs(userId)][0] == UserIdIs(userId);
  }

  lemma MatchesIdAndOwner(id: int, userId: int, t: Task)
    ensures Matches(ByIdAndOwner(id, userId), t) <==> t.id == id && t.userId == userId
  {
    var where := ByIdAndOwner(id, userId);
    assert where[0] == IdIs(id) && where[1] == UserIdIs(userId);
  }

  /** The rows a user owns. */
  function OwnedBy(rows: seq<Task>, userId: int): seq<Task> {
    Select(rows, [UserIdIs(userId)])
  }

  // ---------------------------------------------------------------------------
  // getTasks

  /** The WHERE clause `getTasks` builds: the caller's rows, narrowed by status
      only when the query value is exactly "pending" or "completed". */
  function ListFilter(userId: int, status: Option<string>): (r: seq<Cond>)
    ensures forall t :: Matches(r, t) <==> t.userId == userId && StatusFilterKeeps(status, t)
  {
    var base := [UserIdIs(userId)];
    if status.Some? && status.value != "" && ParseStatus(status.value).Some? then
      var r := base + [StatusIs(ParseStatus(status.value).value)];
      assert forall t :: Matches(r, t) <==> Holds(r[0], t) && Holds(r[1], t);
      r
    else
      assert forall t :: Matches(base, t) <==> Holds(base[0], t);
      base
  }

  /** The status filter as the caller sees it: a recognised value keeps the
      rows with that status, any other value (or none) keeps every row. */
  predicate StatusFilterKeeps(status: Option<string>, t: Task) {
    status.None? || ParseStatus(status.value).None? || t.status == ParseStatus(status.value)
  }

  /** `ORDER BY createdAt DESC`: newest first; nothing is promised among equal timestamps. */
  predicate NewestFirst(s: seq<Task>) {
    forall i, j :: 0 <= i < j < |s| ==> s[i].createdAt >= s[j].createdAt
  }

  /** A row no younger than every row of a newest-first list can go in front of it. */
  lemma PrependNewestFirst(x: Task, s: seq<Task>)
    requires NewestFirst(s)
    requires forall y :: y in s ==> x.createdAt >= y.createdAt
    ensures NewestFirst([x] + s)
  {
    var r := [x] + s;
    forall i, j | 0 <= i < j < |r| ensures r[i].createdAt >= r[j].createdAt {
      if i > 0 {
        assert r[i] == s[i - 1] && r[j] == s[j - 1];
      } else {
        assert r[j] == s[j - 1];
        assert r[j] in s;
      }
    }
  }

  function InsertNewestFirst(t: Task, s: seq<Task>): (r: seq<Task>)
    requires NewestFirst(s)
    ensures NewestFirst(r)
    ensures multiset(r) == multiset(s) + multiset{t}
  {
    if s == [] || t.createdAt >= s[0].createdAt then
      NewestHeadDominates(s);
      PrependNewestFirst(t, s);
      [t] + s
    else
      assert s == [s[0]] + s[1..];
      var rest := InsertNewestFirst(t, s[1..]);
      NewestHeadDominates(s);
      DominatesInsertion(s[0], t, s[1..], rest);
      PrependNewestFirst(s[0], rest);
      [s[0]] + rest
  }

  /** The head of a newest-first list is no older than any of its rows. */
  lemma NewestHeadDominates(s: seq<Task>)
    requires NewestFirst(s)
    ensures s != [] ==> forall y :: y in s ==> s[0].createdAt >= y.createdAt
  {
  }

  /** A row no older than every row of `s` and than `t` is no older than any
      row of a list holding exactly `s` and `t`. */
  lemma DominatesInsertion(h: Task, t: Task, s: seq<Task>, r: seq<Task>)
    requires h.createdAt >= t.createdAt
    requires forall y :: y in s ==> h.createdAt >= y.createdAt
    requires multiset(r) == multiset(s) + multiset{t}
    ensures forall y :: y in r ==> h.createdAt >= y.createdAt
  {
    forall y | y in r ensures h.createdAt >= y.createdAt {
      assert y in multiset(r);
      assert y == t || y in multiset(s);
    }
  }

  function SortNewestFirst(s: seq<Task>): (r: seq<Task>)
    ensures NewestFirst(r)
    ensures multiset(r) == multiset(s)
  {
    if s == [] then []
    else
      assert s == [s[0]] + s[1..];
      InsertNewestFirst(s[0], SortNewestFirst(s[1..]))
  }

  /** The JSON body of a successful GET /tasks. */
  datatype TaskList = TaskList(tasks: seq<Task>, total: int)

  function GetTasks(rows: seq<Task>, userId: int, status: Option<string>): (r: TaskList)
    ensures r.total == |r.tasks|
    ensures NewestFirst(r.tasks)
    ensures forall t ::
      multiset(r.tasks)[t] == if t.userId == userId && StatusFilterKeeps(status, t) then multiset(rows)[t] else 0
    ensures forall t :: t in r.tasks <==> t in rows && t.userId == userId && StatusFilterKeeps(status, t)
  {
    var where := ListFilter(userId, status);
    var tasks := SortNewestFirst(Select(rows, where));
    assert forall t :: Matches(where, t) <==> t.userId == userId && StatusFilterKeeps(status, t) by {
      forall t ensures Matches(where, t) <==> t.userId == userId && StatusFilterKeeps(status, t) {
        assert where[0] == UserIdIs(userId);
        if |where| == 2 {
          assert where[1] == StatusIs(ParseStatus(status.value).value);
        }
      }
    }
    assert forall t :: t in tasks <==> t in multiset(tasks);
    TaskList(tasks, |tasks|)
  }

  /** A filter value other than "pending" or "completed" is ignored, not rejected. */
  lemma UnknownStatusIgnored(rows: seq<Task>, userId: int, status: string)
    requires status != "pending" && status != "completed"
    ensures GetTasks(rows, userId, Some(status)) == GetTasks(rows, userId, None)
  {
  }

  // ---------------------------------------------------------------------------
  // getTaskById

  /** The task with that id, if the caller owns it; otherwise 404, whether the
      id is missing or belongs to someone else. */
  function GetTaskById(rows: seq<Task>, id: int, userId: int): (r: Result<Task, HttpError>)
    ensures r.Ok? <==> exists i :: 0 <= i < |rows| && rows[i].id == id && rows[i].userId == userId
    ensures r.Ok? ==> r.value in rows && r.value.id == id && r.value.userId == userId
    ensures r.Err? ==> r.error == NotFound
  {
    var where := ByIdAndOwner(id, userId);
    assert forall t :: Matches(where, t) <==> t.id == id && t.userId == userId by {
      forall t ensures Matches(where, t) <==> t.id == id && t.userId == userId {
        assert where[0] == IdIs(id) && where[1] == UserIdIs(userId);
      }
    }
    match First(rows, where)
    case Some(t) => Ok(t)
    case None => Err(NotFound)
  }

  /** Rows of other users never change what a WHERE clause that pins the
      owner finds first. */
  lemma {:induction false} FirstSeesOnlyOwnRows(rows: seq<Task>, where: seq<Cond>, userId: int)
    requires forall t :: Matches(where, t) ==> t.userId == userId
    ensures First(rows, where) == First(OwnedBy(rows, userId), where)
  {
    if rows != [] {
      FirstSeesOnlyOwnRows(rows[1..], where, userId);
      var owned := OwnedBy(rows, userId);
      var ownedRest := OwnedBy(rows[1..], userId);
      MatchesOwner(userId, rows[0]);
      if rows[0].userId == userId {
        assert owned == [rows[0]] + ownedRest;
        assert owned[0] == rows[0] && owned[1..] == ownedRest;
      } else {
        assert owned == ownedRest;
      }
    }
  }

  /** Ownership scoping: what a caller reads by id depends only on the rows
      that caller owns, so another user's task looks exactly like a missing one. */
  lemma GetTaskByIdSeesOnlyOwnRows(rows: seq<Task>, id: int, userId: int)
    ensures GetTaskById(rows, id, userId) == GetTaskById(OwnedBy(rows, userId), id, userId)
  {
    var where := ByIdAndOwner(id, userId);
    forall t | Matches(where, t) ensures t.userId == userId {
      assert Holds(where[1], t);
    }
    FirstSeesOnlyOwnRows(rows, where, userId);
  }

  /** Filtering by the owner first changes nothing for a clause that pins the owner. */
  lemma {:induction false} SelectSeesOnlyOwnRows(rows: seq<Task>, where: seq<Cond>, userId: int)
    requires forall t :: Matches(where, t) ==> t.userId == userId
    ensures Select(rows, where) == Select(OwnedBy(rows, userId), where)
  {
    if rows != [] {
      SelectSeesOnlyOwnRows(rows[1..], where, userId);
      MatchesOwner(userId, rows[0]);
      if rows[0].userId == userId {
        assert OwnedBy(rows, userId) == [rows[0]] + OwnedBy(rows[1..], userId);
        assert OwnedBy(rows, userId)[1..] == OwnedBy(rows[1..], userId);
      }
    }
  }

  /** Ownership scoping for the list: the caller's list is computed from the
      caller's rows alone. */
  lemma GetTasksSeesOnlyOwnRows(rows: seq<Task>, userId: int, status: Option<string>)
    ensures GetTasks(rows, userId, status) == GetTasks(OwnedBy(rows, userId), userId, status)
  {
    var where := ListFilter(userId, status);
    forall t | Matches(where, t) ensures t.userId == userId {
      assert Holds(where[0], t);
    }
    SelectSeesOnlyOwnRows(rows, where, userId);
  }

  // ---------------------------------------------------------------------------
  // createTask

  /** `value || null`: a missing, null or empty string is stored as NULL. */
  function OrNull(v: Input): (r: Option<string>)
    ensures r.Some? <==> v.Str? && v.s != ""
    ensures r.Some? ==> r.value == v.s
  {
    match v
    case Str(s) => if s == "" then None else Some(s)
    case _ => None
  }

  // ---------------------------------------------------------------------------
  // updateTask

  /** One `column = ?` of the SET list `updateTask` builds. */
  datatype Assignment =
    | SetTitle(v: Input)
    | SetDescription(v: Input)
    | SetStatus(v: Input)
    | SetDueDate(v: Input)
    | SetUpdatedAt(at: Timestamp)

  /** Applies one assignment; `title NOT NULL` and the status CHECK reject a
      bad value, which fails the whole statement. */
  function Assign(t: Task, a: Assignment): Result<Task, HttpError> {
    match a
    case SetTitle(v) => if v.Str? then Ok(t.(title := v.s)) else Err(UpdateFailed)
    case SetDescription(v) => Ok(t.(description := if v.Str? then Some(v.s) else None))
    case SetStatus(v) =>
      if v.Str? then
        (if ParseStatus(v.s).Some? then Ok(t.(status := ParseStatus(v.s))) else Err(UpdateFailed))
      else Ok(t.(status := None))
    case SetDueDate(v) => Ok(t.(dueDate := if v.Str? then Some(v.s) else None))
    case SetUpdatedAt(at) => Ok(t.(updatedAt := at))
  }

  /** Runs a SET list left to right; the first constraint failure aborts the statement. */
  function AssignAll(t: Task, updates: seq<Assignment>): Result<Task, HttpError>
    decreases updates
  {
    if updates == [] then Ok(t)
    else
      match Assign(t, updates[0])
      case Err(e) => Err(e)
      case Ok(t') => AssignAll(t', updates[1..])
  }

  /** The SET entries for the supplied fields, in the order the handler pushes them. */
  function SuppliedAssignments(p: TaskPatch): seq<Assignment> {
    (if p.title != Absent then [SetTitle(p.title)] else [])
    + (if p.description != Absent then [SetDescription(p.description)] else [])
    + (if p.status != Absent then [SetStatus(p.status)] else [])
    + (if p.dueDate != Absent then [SetDueDate(p.dueDate)] else [])
  }

  /** A supplied value is stored as its text; JSON null becomes NULL. (The
      NUMERIC affinity of the DATETIME `dueDate` column is not modelled.) */
  function Supplied(v: Input, current: Option<string>): Option<string> {
    match v
    case Absent => current
    case Null => None
    case Str(s) => Some(s)
  }

  /** The storage constraints a patch must meet: a title, if supplied, is not
      null, and a status, if supplied as a string, is one of the two values. */
  predicate Storable(p: TaskPatch) {
    p.title != Null && (p.status.Str? ==> ParseStatus(p.status.s).Some?)
  }

  /** The row after a partial update, field by field: each supplied field takes
      its new value, every other field keeps its old one, and `updatedAt` is
      stamped; the statement fails when the patch breaks a storage constraint. */
  function Patched(t: Task, p: TaskPatch, now: Timestamp): (r: Result<Task, HttpError>)
    ensures r.Ok? <==> Storable(p)
    ensures r.Err? ==> r.error == UpdateFailed
  {
    if !Storable(p) then Err(UpdateFailed)
    else
      Ok(Task(
        t.id,
        if p.title.Str? then p.title.s else t.title,
        Supplied(p.description, t.description),
        match p.status
          case Absent => t.status
          case Null => None
          case Str(s) => ParseStatus(s),
        Supplied(p.dueDate, t.dueDate),
        t.userId,
        t.createdAt,
        now))
  }

  /** A successful patch touches exactly the supplied fields and `updatedAt`:
      id, owner, creation time and every field left out keep their values. */
  lemma PatchedChangesOnlySupplied(t: Task, p: TaskPatch, now: Timestamp)
    requires Storable(p)
    ensures var u := Patched(t, p, now).value;
      && u.id == t.id && u.userId == t.userId && u.createdAt == t.createdAt && u.updatedAt == now
      && (p.title == Absent ==> u.title == t.title)
      && (p.description == Absent ==> u.description == t.description)
      && (p.status == Absent ==> u.status == t.status)
      && (p.dueDate == Absent ==> u.dueDate == t.dueDate)
      && (p.title.Str? ==> u.title == p.title.s)
      && (p.description != Absent ==> u.description == (if p.description.Str? then Some(p.description.s) else None))
      && (p.status.Str? ==> u.status.Some? && StatusText(u.status.value) == p.status.s)
      && (p.status == Null ==> u.status == None)
      && (p.dueDate != Absent ==> u.dueDate == (if p.dueDate.Str? then Some(p.dueDate.s) else None))
  {
  }

  /** The SET list the handler builds, followed by `updatedAt = CURRENT_TIMESTAMP`,
      produces exactly the patched row. */
  lemma {:induction false} AssignmentsPatch(t: Task, p: TaskPatch, now: Timestamp)
    ensures AssignAll(t, SuppliedAssignments(p) + [SetUpdatedAt(now)]) == Patched(t, p, now)
  {
    var a1 := if p.title != Absent then [SetTitle(p.title)] else [];
    var a2 := if p.description != Absent then [SetDescription(p.description)] else [];
    var a3 := if p.status != Absent then [SetStatus(p.status)] else [];
    var a4 := if p.dueDate != Absent then [SetDueDate(p.dueDate)] else [];
    var rest := a2 + (a3 + (a4 + [SetUpdatedAt(now)]));
    assert SuppliedAssignments(p) + [SetUpdatedAt(now)] == a1 + rest;
    if p.title == Null {
      AssignAllFails(t, a1, rest);
    } else {
      var t1 := if p.title.Str? then t.(title := p.title.s) else t;
      AssignAllPrefix(t, a1, rest, t1);
      LaterAssignmentsPatch(t, t1, p, now);
    }
  }

  /** After a title that is absent or a string, the remaining assignments
      complete the patch. */
  lemma LaterAssignmentsPatch(t: Task, t1: Task, p: TaskPatch, now: Timestamp)
    requires p.title != Null
    requires t1 == if p.title.Str? then t.(title := p.title.s) else t
    ensures AssignAll(t1,
              (if p.description != Absent then [SetDescription(p.description)] else [])
              + ((if p.status != Absent then [SetStatus(p.status)] else [])
                 + ((if p.dueDate != Absent then [SetDueDate(p.dueDate)] else []) + [SetUpdatedAt(now)])))
         == Patched(t, p, now)
  {
    var a2 := if p.description != Absent then [SetDescription(p.description)] else [];
    var a3 := if p.status != Absent then [SetStatus(p.status)] else [];
    var a4 := if p.dueDate != Absent then [SetDueDate(p.dueDate)] else [];
    var tail := [SetUpdatedAt(now)];
    var t2 := t1.(description := Supplied(p.description, t.description));
    var t3 := if p.status == Absent then t2 else t2.(status := if p.status.Str? then ParseStatus(p.status.s) else None);
    var t4 := t3.(dueDate := Supplied(p.dueDate, t.dueDate));
    AssignAllPrefix(t3, a4, tail, t4);
    if p.status.Str? && ParseStatus(p.status.s).None? {
      AssignAllFails(t2, a3, a4 + tail);
    } else {
      AssignAllPrefix(t2, a3, a4 + tail, t3);
    }
    AssignAllPrefix(t1, a2, a3 + (a4 + tail), t2);
  }

  /** A one-or-zero assignment prefix that succeeds hands its row to the rest. */
  lemma AssignAllPrefix(t: Task, pre: seq<Assignment>, rest: seq<Assignment>, t': Task)
    requires |pre| <= 1
    requires AssignAll(t, pre) == Ok(t')
    ensures AssignAll(t, pre + rest) == AssignAll(t', rest)
  {
    if |pre| == 1 {
      assert (pre + rest)[1..] == rest;
      assert AssignAll(t, pre) == AssignAll(t', []);
    } else {
      assert pre + rest == rest;
    }
  }

  /** A failing assignment aborts the statement, whatever follows it. */
  lemma AssignAllFails(t: Task, pre: seq<Assignment>, rest: seq<Assignment>)
    requires |pre| == 1 && Assign(t, pre[0]).Err?
    ensures AssignAll(t, pre + rest) == Err(UpdateFailed)
  {
    assert (pre + rest)[0] == pre[0];
  }

  /** A patch that passed `validateTaskUpdate` never trips a storage constraint. */
  lemma ValidatedPatchIsStorable(p: TaskPatch, lib: Validation.Validators)
    requires Validation.ValidateTaskUpdate(p, lib).Next?
    ensures Storable(p)
  {
    Validation.TaskUpdateAccepted(p, lib);
  }

  /** A title that passed `validateTaskCreation` is a non-empty string, so the insert meets `title NOT NULL`. */
  lemma ValidatedTitleIsStorable(b: NewTaskBody, lib: Validation.Validators)
    requires Validation.ValidateTaskCreation(b, lib).Next?
    ensures b.title.Str? && b.title.s != ""
  {
    Validation.TaskCreationAccepted(b, lib);
  }

  // ---------------------------------------------------------------------------
  // The table

  /** The `tasks` table, changed in place by INSERT, UPDATE and DELETE. */
  class TaskTable {
    var rows: seq<Task>
    /** The id AUTOINCREMENT hands out next. */
    var nextId: int

    ghost predicate Valid()
      reads this
    {
      nextId >= 1 && TaskIdsUnique(rows) && TaskIdsBelow(rows, nextId)
    }

    constructor ()
      ensures Valid() && rows == [] && nextId == 1
    {
      rows := [];
      nextId := 1;
    }

    /** `createTask`: INSERT the row, then read it back by its new id. */
    method CreateTask(userId: int, body: NewTaskBody, now: Timestamp) returns (r: Result<Task, HttpError>)
      requires Valid()
      modifies this
      ensures Valid()
      ensures body.title.Str? ==>
        && r == Ok(Task(old(nextId), body.title.s, OrNull(body.description), Some(Pending),
                        OrNull(body.dueDate), userId, now, now))
        && rows == old(rows) + [r.value]
        && nextId == old(nextId) + 1
      ensures !body.title.Str? ==> r == Err(CreateFailed) && rows == old(rows) && nextId == old(nextId)
      ensures r.Ok? ==> GetTaskById(rows, r.value.id, userId) == Ok(r.value)
    {
      if !body.title.Str? {
        // title NOT NULL
        return Err(CreateFailed);
      }
      var row := Task(nextId, body.title.s, OrNull(body.description), Some(Pending),
                      OrNull(body.dueDate), userId, now, now);
      var lastId := nextId;
      rows := rows + [row];
      nextId := nextId + 1;
      var byId := [IdIs(lastId)];
      var k := FirstIndex(rows, byId);
      assert byId[0] == IdIs(lastId);
      forall j | 0 <= j < |rows| - 1 ensures !Matches(byId, rows[j]) {
        assert !Holds(byId[0], rows[j]);
      }
      assert Holds(byId[0], rows[|rows| - 1]);
      assert k == |rows| - 1;
      r := Ok(rows[k]);
      MatchesIdAndOwner(lastId, userId, row);
      forall j | 0 <= j < |rows| - 1 ensures !Matches(ByIdAndOwner(lastId, userId), rows[j]) {
        MatchesIdAndOwner(lastId, userId, rows[j]);
      }
      FirstAtFirstIndex(rows, ByIdAndOwner(lastId, userId));
    }

    /** The SET list of `updateTask`, one assignment pushed per supplied field. */
    static method BuildSetList(p: TaskPatch) returns (updates: seq<Assignment>)
      ensures updates == SuppliedAssignments(p)
      ensures updates == [] <==> p == TaskPatch(Absent, Absent, Absent, Absent)
    {
      updates := [];
      if p.title != Absent {
        updates := updates + [SetTitle(p.title)];
      }
      if p.description != Absent {
        updates := updates + [SetDescription(p.description)];
      }
      if p.status != Absent {
        updates := updates + [SetStatus(p.status)];
      }
      if p.dueDate != Absent {
        updates := updates + [SetDueDate(p.dueDate)];
      }
    }

    /** `updateTask`: find the caller's row, build the SET list from the
        supplied fields, run the UPDATE, then read the row back. */
    method UpdateTask(id: int, userId: int, p: TaskPatch, now: Timestamp) returns (r: Result<Task, HttpError>)
      requires Valid()
      modifies this
      ensures Valid() && nextId == old(nextId)
      ensures GetTaskById(old(rows), id, userId).Err? ==> r == Err(NotFound) && rows == old(rows)
      ensures GetTaskById(old(rows), id, userId).Ok? && p == TaskPatch(Absent, Absent, Absent, Absent) ==>
        r == Err(NothingToUpdate) && rows == old(rows)
      ensures GetTaskById(old(rows), id, userId).Ok? && p != TaskPatch(Absent, Absent, Absent, Absent) ==>
        var before := GetTaskById(old(rows), id, userId).value;
        && r == Patched(before, p, now)
        && (r.Err? ==> rows == old(rows))
        && (r.Ok? ==>
              && |rows| == |old(rows)|
              && forall i :: 0 <= i < |rows| ==>
                   rows[i] == if old(rows)[i].id == id then r.value else old(rows)[i])
      ensures r.Ok? ==> GetTaskById(rows, id, userId) == r
    {
      var where := ByIdAndOwner(id, userId);
      var k := FirstIndex(rows, where);
      LookupAt(rows, id, userId);
      if k == |rows| {
        return Err(NotFound);
      }

      var updates := BuildSetList(p);
      if |updates| == 0 {
        return Err(NothingToUpdate);
      }
      updates := updates + [SetUpdatedAt(now)];
      AssignmentsPatch(rows[k], p, now);

      var outcome := AssignAll(rows[k], updates);
      if outcome.Err? {
        return Err(UpdateFailed);
      }
      ReplaceRow(rows, k, outcome.value, nextId);
      rows := rows[k := outcome.value];

      // read the row back
      var found := First(rows, where);
      r := Ok(found.value);
    }

    /** `deleteTask`: find the caller's row, DELETE it, answer with the
        snapshot taken before the delete. */
    method DeleteTask(id: int, userId: int) returns (r: Result<Task, HttpError>)
      requires Valid()
      modifies this
      ensures Valid() && nextId == old(nextId)
      ensures GetTaskById(old(rows), id, userId).Err? ==> r == Err(NotFound) && rows == old(rows)
      ensures GetTaskById(old(rows), id, userId).Ok? ==>
        && r == GetTaskById(old(rows), id, userId)
        && |rows| == |old(rows)| - 1
        && (forall t :: t in rows <==> t in old(rows) && t.id != id)
      ensures GetTaskById(rows, id, userId) == Err(NotFound)
    {
      var where := ByIdAndOwner(id, userId);
      var k := FirstIndex(rows, where);
      LookupAt(rows, id, userId);
      if k == |rows| {
        return Err(NotFound);
      }
      var snapshot := rows[k];
      RemoveRow(rows, k, nextId);
      rows := rows[..k] + rows[k + 1..];
      r := Ok(snapshot);
    }
  }

  /** The lookup every single-row handler starts with finds the row at the
      first position matching `id = ? AND userId = ?`. */
  lemma LookupAt(rows: seq<Task>, id: int, userId: int)
    ensures var k := FirstIndex(rows, ByIdAndOwner(id, userId));
      && GetTaskById(rows, id, userId) == (if k < |rows| then Ok(rows[k]) else Err(NotFound))
      && (k < |rows| ==> rows[k].id == id && rows[k].userId == userId)
  {
    var where := ByIdAndOwner(id, userId);
    FirstAtFirstIndex(rows, where);
    if FirstIndex(rows, where) < |rows| {
      MatchesIdAndOwner(id, userId, rows[FirstIndex(rows, where)]);
    }
  }

  /** Writing a row back over itself, id and owner unchanged, keeps the key
      invariants, replaces exactly the row with that id, and the row reads back. */
  lemma ReplaceRow(rows: seq<Task>, k: nat, t: Task, next: int)
    requires TaskIdsUnique(rows) && TaskIdsBelow(rows, next) && k < |rows|
    requires t.id == rows[k].id && t.userId == rows[k].userId
    ensures var rows' := rows[k := t];
      && TaskIdsUnique(rows') && TaskIdsBelow(rows', next)
      && (forall i :: 0 <= i < |rows| ==> rows'[i] == if rows[i].id == t.id then t else rows[i])
      && First(rows', ByIdAndOwner(t.id, t.userId)) == Some(t)
  {
    var rows' := rows[k := t];
    var where := ByIdAndOwner(t.id, t.userId);
    var k' := FirstIndex(rows', where);
    FirstAtFirstIndex(rows', where);
    MatchesIdAndOwner(t.id, t.userId, t);
    assert rows'[k] == t;
    assert k' <= k;
    MatchesIdAndOwner(t.id, t.userId, rows'[k']);
  }

  /** Deleting the row at position k keeps the key invariants and removes
      exactly the rows carrying its id. */
  lemma RemoveRow(rows: seq<Task>, k: nat, next: int)
    requires TaskIdsUnique(rows) && TaskIdsBelow(rows, next) && k < |rows|
    ensures var rest := rows[..k] + rows[k + 1..];
      && TaskIdsUnique(rest) && TaskIdsBelow(rest, next)
      && |rest| == |rows| - 1
      && (forall t :: t in rest <==> t in rows && t.id != rows[k].id)
      && GetTaskById(rest, rows[k].id, rows[k].userId) == Err(NotFound)
  {
    var rest := rows[..k] + rows[k + 1..];
    RemoveRowShifts(rows, k);
    RemoveRowMembers(rows, k);
    assert forall j :: 0 <= j < |rest| ==> rest[j].id != rows[k].id by {
      forall j | 0 <= j < |rest| ensures rest[j].id != rows[k].id {
        assert rest[j] in rest;
      }
    }
  }

  lemma RemoveRowShifts(rows: seq<Task>, k: nat)
    requires k < |rows|
    ensures var rest := rows[..k] + rows[k + 1..];
      && |rest| == |rows| - 1
      && forall j :: 0 <= j < |rest| ==> rest[j] == if j < k then rows[j] else rows[j + 1]
  {
  }

  lemma RemoveRowMembers(rows: seq<Task>, k: nat)
    requires TaskIdsUnique(rows) && k < |rows|
    ensures var rest := rows[..k] + rows[k + 1..];
      forall t :: t in rest <==> t in rows && t.id != rows[k].id
  {
    var rest := rows[..k] + rows[k + 1..];
    var id := rows[k].id;
    RemoveRowShifts(rows, k);
    forall t ensures t in rest <==> t in rows && t.id != id {
      if t in rest {
        var j :| 0 <= j < |rest| && rest[j] == t;
        if j >= k { assert t == rows[j + 1]; }
      }
      if t in rows && t.id != id {
        var j :| 0 <= j < |rows| && rows[j] == t;
        if j < k { assert rest[j] == t; } else { assert rest[j - 1] == t; }
      }
    }
  }
}
