/**
 * The observable behaviour of the GORM task repository, over an abstract
 * store: the task table in row order, the tag table (name to id, names
 * unique) and the next tag id the table will hand out.
 *
 * Ids arrive as strings and are compared with the uuid primary key, so the
 * database first parses them: text that is not a UUID fails the whole
 * statement. Operations that change the store return the new store; an
 * error means the store is unchanged.
 */
module TaskRepo {
  import opened Results
  import opened Uuids
  import opened Text
  import opened TaskModel

  datatype Store = Store(tasks: seq<Task>, tagTable: map<string, nat>, nextTagId: nat)

  /** A task handed back to the caller together with the store it was read from. */
  datatype Saved = Saved(task: Task, store: Store)

  /** The statuses `Stats` counts, in the order it counts them. */
  const Statuses: seq<string> := ["todo", "in_progress", "done", "blocked"]

  /** 24 hours in nanoseconds. */
  const Day: int := 86_400_000_000_000

  // ---------------------------------------------------------------------
  // Store invariant

  predicate IdsUnique(ts: seq<Task>)
  {
    forall i, j :: 0 <= i < j < |ts| ==> ts[i].id != ts[j].id
  }

  predicate IdsAssigned(ts: seq<Task>)
  {
    forall i :: 0 <= i < |ts| ==> ts[i].id != Nil
  }

  /** Tag ids are below the next id the table hands out, and distinct. */
  predicate TagTableOk(table: map<string, nat>, nextTagId: nat)
  {
    && (forall n :: n in table ==> table[n] < nextTagId)
    && (forall n, m :: n in table && m in table && n != m ==> table[n] != table[m])
  }

  /** Every tag on a task is a row of the tag table, and no tag is attached twice. */
  predicate TagsOk(tags: seq<Tag>, table: map<string, nat>)
  {
    && (forall k :: 0 <= k < |tags| ==> tags[k].name in table && table[tags[k].name] == tags[k].id)
    && (forall k, l :: 0 <= k < l < |tags| ==> tags[k].id != tags[l].id)
  }

  predicate AllTagsOk(ts: seq<Task>, table: map<string, nat>)
  {
    forall i :: 0 <= i < |ts| ==> TagsOk(ts[i].tags, table)
  }

  /** Every stored row holds values its columns accept. */
  predicate RowsFit(ts: seq<Task>)
  {
    forall i :: 0 <= i < |ts| ==> Fits(ts[i])
  }

  /** What the database's keys, unique index, join table and column types guarantee at all times. */
  predicate Valid(st: Store)
  {
    && IdsUnique(st.tasks)
    && IdsAssigned(st.tasks)
    && RowsFit(st.tasks)
    && TagTableOk(st.tagTable, st.nextTagId)
    && AllTagsOk(st.tasks, st.tagTable)
  }

  const Empty: Store := Store([], map[], 1)

  lemma EmptyValid()
    ensures Valid(Empty)
  {
  }

  // ---------------------------------------------------------------------
  // Row helpers

  /** Some stored row has this id. */
  predicate Stored(ts: seq<Task>, id: Uuid)
  {
    exists i :: 0 <= i < |ts| && ts[i].id == id
  }

  function Find(ts: seq<Task>, id: Uuid): (r: Option<Task>)
    ensures r.Some? ==> r.value in ts && r.value.id == id
    ensures r.None? <==> !Stored(ts, id)
  {
    if ts == [] then None
    else if ts[0].id == id then Some(ts[0])
    else
      var r := Find(ts[1..], id);
      assert Stored(ts, id) ==> Stored(ts[1..], id) by {
        if Stored(ts, id) {
          var i :| 0 <= i < |ts| && ts[i].id == id;
          assert ts[1..][i - 1].id == id;
        }
      }
      assert r.Some? ==> Stored(ts, id) by {
        if r.Some? {
          var i :| 0 <= i < |ts[1..]| && ts[1..][i] == r.value;
          assert ts[i + 1].id == id;
        }
      }
      r
  }

  /** With unique ids, the row found for an id is the row at that id's position. */
  lemma FindUnique(ts: seq<Task>, i: int)
    requires IdsUnique(ts) && 0 <= i < |ts|
    ensures Find(ts, ts[i].id) == Some(ts[i])
  {
    var r := Find(ts, ts[i].id);
    var j :| 0 <= j < |ts| && ts[j] == r.value;
    assert !(j < i || i < j);
  }

  /** The rows that satisfy `p`, in row order. */
  function Select(ts: seq<Task>, p: Task -> bool): (r: seq<Task>)
    ensures |r| <= |ts|
    ensures forall t :: t in r <==> t in ts && p(t)
  {
    if ts == [] then []
    else if p(ts[0]) then [ts[0]] + Select(ts[1..], p)
    else Select(ts[1..], p)
  }

  /** Overwrites the row whose id is `row.id`. */
  function Replace(ts: seq<Task>, row: Task): (r: seq<Task>)
    ensures |r| == |ts|
    ensures forall i :: 0 <= i < |ts| ==> r[i] == if ts[i].id == row.id then row else ts[i]
  {
    seq(|ts|, i requires 0 <= i < |ts| => if ts[i].id == row.id then row else ts[i])
  }

  /** The database's reading of an id string. */
  function ResolveId(id: string): (r: Result<Uuid>)
    ensures r.Ok? <==> Parse(id).Some?
    ensures r.Ok? ==> Parse(id) == Some(r.value)
    ensures r.Err? ==> r.error == InvalidUuidSyntax
  {
    match Parse(id)
    case Some(u) => Ok(u)
    case None => Err(InvalidUuidSyntax)
  }

  /** Reads every id of an `IN` list; one malformed id fails the whole list. */
  function ResolveIds(ids: seq<string>): (r: Result<seq<Uuid>>)
    ensures r.Ok? <==> forall k :: 0 <= k < |ids| ==> Parse(ids[k]).Some?
    ensures r.Ok? ==> |r.value| == |ids| && forall k :: 0 <= k < |ids| ==> Parse(ids[k]) == Some(r.value[k])
    ensures r.Err? ==> r.error == InvalidUuidSyntax
  {
    if ids == [] then Ok([])
    else
      ResolveIdsStep(ids);
      var u :- ResolveId(ids[0]);
      var us :- ResolveIds(ids[1..]);
      Ok([u] + us)
  }

  /** A list of ids parses entry by entry: its head, then its tail. */
  lemma ResolveIdsStep(ids: seq<string>)
    requires ids != []
    ensures (forall k :: 0 <= k < |ids| ==> Parse(ids[k]).Some?)
            <==> Parse(ids[0]).Some? && forall k :: 0 <= k < |ids[1..]| ==> Parse(ids[1..][k]).Some?
  {
    assert forall k :: 1 <= k < |ids| ==> ids[1..][k - 1] == ids[k];
  }

  /** Some entry of the id list names the task id `u`. */
  predicate Listed(ids: seq<string>, u: Uuid)
  {
    exists k :: 0 <= k < |ids| && Parse(ids[k]) == Some(u)
  }

  /** The resolved list holds exactly the task ids the list names. */
  lemma ResolvedListed(ids: seq<string>, us: seq<Uuid>)
    requires ResolveIds(ids) == Ok(us)
    ensures forall u :: u in us <==> Listed(ids, u)
  {
    forall u | Listed(ids, u)
      ensures u in us
    {
      var k :| 0 <= k < |ids| && Parse(ids[k]) == Some(u);
      assert us[k] == u;
    }
  }

  // ---------------------------------------------------------------------
  // Create / read / update / delete

  /**
   * `Create`: runs the create hook, applies the column defaults and inserts
   * the row. A value its column refuses fails the insert; an id that is
   * already stored violates the primary key. The caller keeps its own copy
   * of the task, which is not re-read, so it may differ from the stored
   * row by the trailing spaces a column cut off.
   */
  function Create(st: Store, t: Task, newId: Uuid): (r: Result<Saved>)
    requires newId != Nil
    ensures var row := WithColumnDefaults(BeforeCreate(t, newId)).(tags := []);
            && (StoreRow(row).Err? ==> r == Err(StoreRow(row).error))
            && (StoreRow(row).Ok? && Stored(st.tasks, row.id) ==> r == Err(DuplicateKey))
            && (StoreRow(row).Ok? && !Stored(st.tasks, row.id) ==>
                  r == Ok(Saved(row, st.(tasks := st.tasks + [StoreRow(row).value]))))
  {
    var row := WithColumnDefaults(BeforeCreate(t, newId)).(tags := []);
    match StoreRow(row)
    case Err(e) => Err(e)
    case Ok(stored) =>
      if Find(st.tasks, row.id).Some? then Err(DuplicateKey)
      else Ok(Saved(row, st.(tasks := st.tasks + [stored])))
  }

  /** `GetByID`: the stored row with this id, or why there is none. */
  function GetByID(st: Store, id: string): (r: Result<Task>)
    ensures Parse(id).None? ==> r == Err(InvalidUuidSyntax)
    ensures Parse(id).Some? && !Stored(st.tasks, Parse(id).value) ==> r == Err(RecordNotFound)
    ensures r.Ok? ==> r.value in st.tasks && Parse(id) == Some(r.value.id)
  {
    var u :- ResolveId(id);
    match Find(st.tasks, u)
    case Some(t) => Ok(t)
    case None => Err(RecordNotFound)
  }

  /** A stored task is found by its own text id. */
  lemma GetByIDOfStored(st: Store, i: int)
    requires IdsUnique(st.tasks) && 0 <= i < |st.tasks|
    ensures GetByID(st, ToString(st.tasks[i].id)) == Ok(st.tasks[i])
  {
    ParseToString(st.tasks[i].id);
    FindUnique(st.tasks, i);
  }

  /**
   * `Update` (a `Save` of a task read earlier): overwrites the stored row's
   * columns with the task's, as its columns store them, keeping the row's
   * tag links. A value a column refuses fails the statement.
   */
  function Update(st: Store, t: Task): (r: Result<Store>)
    ensures StoreRow(t).Err? ==> r == Err(StoreRow(t).error)
    ensures StoreRow(t).Ok? && !Stored(st.tasks, t.id) ==> r == Err(RecordNotFound)
    ensures StoreRow(t).Ok? && Stored(st.tasks, t.id) ==> r.Ok?
    ensures r.Ok? ==> |r.value.tasks| == |st.tasks| && r.value.tagTable == st.tagTable
                      && r.value.nextTagId == st.nextTagId
    ensures r.Ok? ==> StoreRow(t).Ok? && forall i :: 0 <= i < |st.tasks| ==>
                        r.value.tasks[i] == if st.tasks[i].id == t.id then StoreRow(t).value.(tags := st.tasks[i].tags)
                                            else st.tasks[i]
  {
    match StoreRow(t)
    case Err(e) => Err(e)
    case Ok(row) =>
      if Find(st.tasks, t.id).None? then Err(RecordNotFound)
      else
        Ok(st.(tasks := seq(|st.tasks|, i requires 0 <= i < |st.tasks| =>
                             if st.tasks[i].id == t.id then row.(tags := st.tasks[i].tags) else st.tasks[i])))
  }

  /** `Delete`: the row with this id disappears from later queries; a missing id is no error. */
  function Delete(st: Store, id: string): (r: Result<Store>)
    ensures Parse(id).None? <==> r.Err?
    ensures r.Err? ==> r.error == InvalidUuidSyntax
    ensures r.Ok? ==> r.value.tagTable == st.tagTable && r.value.nextTagId == st.nextTagId
    ensures r.Ok? ==> forall t :: t in r.value.tasks <==> t in st.tasks && Some(t.id) != Parse(id)
  {
    var u :- ResolveId(id);
    Ok(st.(tasks := Select(st.tasks, (t: Task) => t.id != u)))
  }

  // ---------------------------------------------------------------------
  // Queries

  function FindByStatus(st: Store, status: string): (r: seq<Task>)
    ensures forall t :: t in r <==> t in st.tasks && t.status == status
  {
    Select(st.tasks, (t: Task) => t.status == status)
  }

  function FindByPriority(st: Store, priority: string): (r: seq<Task>)
    ensures forall t :: t in r <==> t in st.tasks && t.priority == priority
  {
    Select(st.tasks, (t: Task) => t.priority == priority)
  }

  /** `FindByTag`: the join through the link table to the tag row of that name. */
  function FindByTag(st: Store, name: string): (r: seq<Task>)
    ensures forall t :: t in r <==> t in st.tasks && HasTagNamed(t, name)
  {
    Select(st.tasks, (t: Task) => exists k :: 0 <= k < |t.tags| && t.tags[k].name == name)
  }

  /**
   * The `%q%` pattern search builds: the query between two any-string
   * wildcards, unescaped, so the query's own `%`, `_` and `\` keep their
   * LIKE meaning.
   */
  function SearchPattern(q: string): (r: string)
    ensures |r| == |q| + 2 && r[0] == '%' && r[|r| - 1] == '%' && r[1..|r| - 1] == q
  {
    "%" + q + "%"
  }

  /**
   * The title or the content is `ILIKE %q%`; for a query without LIKE
   * metacharacters, that is a case-insensitive substring test.
   */
  predicate Matches(t: Task, q: string, fold: char -> char)
    ensures IsLiteral(q) ==>
              (Matches(t, q, fold) <==> ContainsFolded(t.title, q, fold) || ContainsFolded(t.content, q, fold))
  {
    if IsLiteral(q) then
      LikeContains(t.title, q, fold);
      LikeContains(t.content, q, fold);
      Like(t.title, SearchPattern(q), fold) || Like(t.content, SearchPattern(q), fold)
    else
      Like(t.title, SearchPattern(q), fold) || Like(t.content, SearchPattern(q), fold)
  }

  /**
   * `Search`: the query is trimmed; a blank query answers nothing without a
   * database round trip; otherwise a task matches when its title or content
   * is `ILIKE %q%`.
   */
  function Search(st: Store, q: string, fold: char -> char): (r: seq<Task>)
    ensures IsBlank(q) ==> r == []
    ensures !IsBlank(q) ==> forall t :: t in r <==> (t in st.tasks && Matches(t, TrimSpace(q), fold))
  {
    var q' := TrimSpace(q);
    if q' == "" then []
    else
      var like := SearchPattern(q');
      Select(st.tasks, (t: Task) => Like(t.title, like, fold) || Like(t.content, like, fold))
  }

  /**
   * For a query with no LIKE metacharacters, search finds exactly the tasks
   * whose title or content contains the trimmed query, ignoring case.
   */
  lemma SearchFindsContaining(st: Store, q: string, fold: char -> char, t: Task)
    requires !IsBlank(q) && IsLiteral(TrimSpace(q))
    ensures t in Search(st, q, fold) <==>
              t in st.tasks && (ContainsFolded(t.title, TrimSpace(q), fold) || ContainsFolded(t.content, TrimSpace(q), fold))
  {
    LikeContains(t.title, TrimSpace(q), fold);
    LikeContains(t.content, TrimSpace(q), fold);
  }

  /** Go's `Time.Truncate(24h)`: rounds down to a whole day, also before the epoch. */
  function DayStart(now: int): (start: int)
    ensures start <= now < start + Day
    ensures start % Day == 0
  {
    now - now % Day
  }

  /** `GetToday`: tasks due in [start, start + 24h - 1ns], start being today at 00:00 UTC. */
  function GetToday(st: Store, now: int): (r: seq<Task>)
    ensures forall t :: t in r <==> t in st.tasks && t.due.Some? && t.due.value / Day == now / Day
  {
    var start := DayStart(now);
    var end := start + Day - 1;
    SameDayWindow(now);
    Select(st.tasks, (t: Task) => t.due.Some? && start <= t.due.value <= end)
  }

  /** The closed window [DayStart(now), DayStart(now) + Day - 1] is exactly the day of `now`. */
  lemma SameDayWindow(now: int)
    ensures forall d: int :: DayStart(now) <= d <= DayStart(now) + Day - 1 <==> d / Day == now / Day
  {
    var q := now / Day;
    assert DayStart(now) == q * Day;
    forall d: int
      ensures DayStart(now) <= d <= DayStart(now) + Day - 1 <==> d / Day == q
    {
      var e := d / Day;
      assert e * Day <= d < e * Day + Day;
      if e < q {
        assert e * Day + Day <= q * Day;
      } else if e > q {
        assert q * Day + Day <= e * Day;
      }
    }
  }

  /** `GetOverdue`: tasks due strictly before now that are not done; no due date, not overdue. */
  function GetOverdue(st: Store, now: int): (r: seq<Task>)
    ensures forall t :: t in r ==> t in st.tasks && t.due.Some? && t.due.value < now && t.status != "done"
    ensures forall t :: t in st.tasks && t.due.Some? && t.due.value < now && t.status != "done" ==> t in r
  {
    Select(st.tasks, (t: Task) => t.due.Some? && t.due.value < now && t.status != "done")
  }

  /** A task due today is overdue once its due time has passed, unless it is done. */
  lemma TodayAndOverdue(st: Store, now: int, t: Task)
    requires t in GetToday(st, now) && t.due.value < now && t.status != "done"
    ensures t in GetOverdue(st, now)
  {
  }

  // ---------------------------------------------------------------------
  // Tags

  /**
   * `FirstOrCreate` on the tag table: the tag with this name, created with
   * the next id if there is none. A NUL in the name fails the lookup; a
   * new name wider than the column fails the insert.
   */
  function TagFor(st: Store, name: string): (r: Result<(Tag, Store)>)
    ensures HasNul(name) ==> r == Err(NulInText)
    ensures !HasNul(name) && name !in st.tagTable && |name| > TagNameWidth ==> r == Err(ValueTooLong)
    ensures r.Ok? <==> !HasNul(name) && (name in st.tagTable || |name| <= TagNameWidth)
    ensures r.Ok? ==> var (t, st') := r.value;
                      t.name == name && name in st'.tagTable && st'.tagTable[name] == t.id
    ensures r.Ok? && name in st.tagTable ==> r.value.1 == st
    ensures r.Ok? && name !in st.tagTable ==>
              r.value.1 == st.(tagTable := st.tagTable[name := st.nextTagId], nextTagId := st.nextTagId + 1)
  {
    if HasNul(name) then Err(NulInText)
    else if name in st.tagTable then Ok((Tag(st.tagTable[name], name), st))
    else if |name| > TagNameWidth then Err(ValueTooLong)
    else Ok((Tag(st.nextTagId, name),
             st.(tagTable := st.tagTable[name := st.nextTagId], nextTagId := st.nextTagId + 1)))
  }

  /** `Association("Tags").Append`: links the tag unless it is already linked. */
  function AppendTag(tags: seq<Tag>, tag: Tag): (r: seq<Tag>)
    ensures tag in r
    ensures forall x :: x in tags ==> x in r
    ensures forall x :: x in r ==> x in tags || x == tag
  {
    if tag in tags then tags else tags + [tag]
  }

  /**
   * `AddTag`: the name is trimmed and must not be blank (checked before any
   * lookup); then the task is read and the tag linked to it. A non-blank
   * name the tag table can hold, on a stored task, always succeeds.
   */
  function AddTag(st: Store, id: string, tag: string): (r: Result<Saved>)
    ensures IsBlank(tag) ==> r == Err(TagEmpty)
    ensures !IsBlank(tag) && Parse(id).None? ==> r == Err(InvalidUuidSyntax)
    ensures !IsBlank(tag) && Parse(id).Some? && !Stored(st.tasks, Parse(id).value) ==> r == Err(RecordNotFound)
    ensures !IsBlank(tag) && Parse(id).Some? && Stored(st.tasks, Parse(id).value) ==>
              (r.Ok? <==> TagFor(st, TrimSpace(tag)).Ok?)
              && (r.Err? ==> r.error == TagFor(st, TrimSpace(tag)).error)
    ensures r.Ok? ==> HasTagNamed(r.value.task, TrimSpace(tag))
                      && r.value.store.tagTable.Keys == st.tagTable.Keys + {TrimSpace(tag)}
                      && r.value.store.tasks == Replace(st.tasks, r.value.task)
                      && GetByID(st, id).Ok? && r.value.task == GetByID(st, id).value.(tags := r.value.task.tags)
  {
    var name := TrimSpace(tag);
    if name == "" then Err(TagEmpty)
    else
      var task :- GetByID(st, id);
      LinkTag(st, task, name)
  }

  /**
   * The rest of `AddTag` once the task is read: find or create the tag row,
   * link it, and re-read the task with its tags. Only the tag lookup can
   * fail.
   */
  function LinkTag(st: Store, task: Task, name: string): (r: Result<Saved>)
    ensures r.Ok? <==> TagFor(st, name).Ok?
    ensures r.Err? ==> r.error == TagFor(st, name).error
    ensures r.Ok? ==> HasTagNamed(r.value.task, name)
    ensures r.Ok? ==> r.value.store.tagTable.Keys == st.tagTable.Keys + {name}
    ensures r.Ok? ==> r.value.task == task.(tags := r.value.task.tags)
    ensures r.Ok? ==> forall x :: x in task.tags ==> x in r.value.task.tags
    ensures r.Ok? ==> r.value.store.tasks == Replace(st.tasks, r.value.task)
  {
    match TagFor(st, name)
    case Err(e) => Err(e)
    case Ok((t, st1)) =>
      var task' := task.(tags := AppendTag(task.tags, t));
      assert task'.tags[if t in task.tags then IndexOfTag(task.tags, t) else |task.tags|] == t;
      Ok(Saved(task', st1.(tasks := Replace(st1.tasks, task'))))
  }

  function IndexOfTag(tags: seq<Tag>, t: Tag): (k: nat)
    requires t in tags
    ensures k < |tags| && tags[k] == t
  {
    if tags[0] == t then 0 else 1 + IndexOfTag(tags[1..], t)
  }

  /**
   * `RemoveTag`: the task is read, then the tag row with exactly this name
   * (the name is not trimmed; a NUL in it fails the lookup); the link is
   * deleted if present, the tag row stays, and the task is re-read with its
   * tags.
   */
  function RemoveTag(st: Store, id: string, tag: string): (r: Result<Saved>)
    ensures Parse(id).None? ==> r == Err(InvalidUuidSyntax)
    ensures Parse(id).Some? && !Stored(st.tasks, Parse(id).value) ==> r == Err(RecordNotFound)
    ensures GetByID(st, id).Ok? && HasNul(tag) ==> r == Err(NulInText)
    ensures GetByID(st, id).Ok? && !HasNul(tag) && tag !in st.tagTable ==> r == Err(RecordNotFound)
    ensures GetByID(st, id).Ok? && !HasNul(tag) && tag in st.tagTable ==> r.Ok?
    ensures r.Ok? ==> r.value.store.tagTable == st.tagTable && r.value.store.nextTagId == st.nextTagId
    ensures r.Ok? ==> r.value.store.tasks == Replace(st.tasks, r.value.task)
    ensures r.Ok? ==> r.value.task == GetByID(st, id).value.(tags := r.value.task.tags)
    ensures r.Ok? ==> forall x :: x in r.value.task.tags <==> x in GetByID(st, id).value.tags && x.id != st.tagTable[tag]
  {
    var task :- GetByID(st, id);
    if HasNul(tag) then Err(NulInText)
    else if tag !in st.tagTable then Err(RecordNotFound)
    else
      var tagId := st.tagTable[tag];
      var task' := task.(tags := SelectTags(task.tags, (x: Tag) => x.id != tagId));
      Ok(Saved(task', st.(tasks := Replace(st.tasks, task'))))
  }

  function SelectTags(tags: seq<Tag>, p: Tag -> bool): (r: seq<Tag>)
    ensures |r| <= |tags|
    ensures forall x :: x in r <==> x in tags && p(x)
  {
    if tags == [] then []
    else if p(tags[0]) then [tags[0]] + SelectTags(tags[1..], p)
    else SelectTags(tags[1..], p)
  }

  // ---------------------------------------------------------------------
  // Bulk operations and archiving

  /** `BulkDelete`: an empty list is a no-op; otherwise exactly the listed tasks disappear. */
  function BulkDelete(st: Store, ids: seq<string>): (r: Result<Store>)
    ensures ids == [] ==> r == Ok(st)
    ensures r.Err? <==> exists k :: 0 <= k < |ids| && Parse(ids[k]).None?
    ensures r.Err? ==> r.error == InvalidUuidSyntax
    ensures r.Ok? ==> r.value.tagTable == st.tagTable && r.value.nextTagId == st.nextTagId
    ensures r.Ok? ==> forall t :: t in r.value.tasks <==> t in st.tasks && !Listed(ids, t.id)
  {
    if |ids| == 0 then Ok(st)
    else
      var us :- ResolveIds(ids);
      ResolvedListed(ids, us);
      Ok(st.(tasks := Select(st.tasks, (t: Task) => t.id !in us)))
  }

  /**
   * `BulkUpdateStatus`: an empty list is a no-op; otherwise the statement's
   * parameters are read in order (the status first, then the ids) and the
   * status goes through its column width; exactly the listed tasks take
   * the status as stored and nothing else changes.
   */
  function BulkUpdateStatus(st: Store, ids: seq<string>, status: string): (r: Result<Store>)
    ensures ids == [] ==> r == Ok(st)
    ensures ids != [] && HasNul(status) ==> r == Err(NulInText)
    ensures ids != [] && !HasNul(status) && (exists k :: 0 <= k < |ids| && Parse(ids[k]).None?) ==>
              r == Err(InvalidUuidSyntax)
    ensures ids != [] && !HasNul(status) && (forall k :: 0 <= k < |ids| ==> Parse(ids[k]).Some?) ==>
              (r.Ok? <==> FitVarchar(status, StatusWidth).Ok?)
    ensures r.Err? ==> r.error in {NulInText, InvalidUuidSyntax, ValueTooLong}
    ensures r.Ok? ==> r.value.tagTable == st.tagTable && r.value.nextTagId == st.nextTagId
    ensures r.Ok? && ids != [] ==>
              && FitVarchar(status, StatusWidth).Ok?
              && |r.value.tasks| == |st.tasks|
              && forall i :: 0 <= i < |st.tasks| ==>
                   r.value.tasks[i] == if Listed(ids, st.tasks[i].id)
                                       then st.tasks[i].(status := FitVarchar(status, StatusWidth).value)
                                       else st.tasks[i]
  {
    if |ids| == 0 then Ok(st)
    else if HasNul(status) then Err(NulInText)
    else
      var us :- ResolveIds(ids);
      ResolvedListed(ids, us);
      var s :- FitVarchar(status, StatusWidth);
      Ok(st.(tasks := seq(|st.tasks|, i requires 0 <= i < |st.tasks| =>
                           if st.tasks[i].id in us then st.tasks[i].(status := s) else st.tasks[i])))
  }

  /** Reads the task, sets the archived flag and saves it. */
  function SetArchived(st: Store, id: string, archived: bool): (r: Result<Saved>)
    ensures Parse(id).None? ==> r == Err(InvalidUuidSyntax)
    ensures Parse(id).Some? && !Stored(st.tasks, Parse(id).value) ==> r == Err(RecordNotFound)
    ensures r.Ok? ==> exists t :: t in st.tasks && Parse(id) == Some(t.id) && r.value.task == t.(archived := archived)
    ensures r.Ok? ==> r.value.store.tagTable == st.tagTable && r.value.store.nextTagId == st.nextTagId
    ensures r.Ok? ==> r.value.store.tasks == Replace(st.tasks, r.value.task)
  {
    var task :- GetByID(st, id);
    var task' := task.(archived := archived);
    Ok(Saved(task', st.(tasks := Replace(st.tasks, task'))))
  }

  function Archive(st: Store, id: string): (r: Result<Saved>)
    ensures Parse(id).None? ==> r == Err(InvalidUuidSyntax)
    ensures Parse(id).Some? && !Stored(st.tasks, Parse(id).value) ==> r == Err(RecordNotFound)
    ensures r.Ok? ==> r.value.task.archived && r.value.task == GetByID(st, id).value.(archived := true)
    ensures r.Ok? ==> r.value.store == st.(tasks := Replace(st.tasks, r.value.task))
  {
    SetArchived(st, id, true)
  }

  function Unarchive(st: Store, id: string): (r: Result<Saved>)
    ensures Parse(id).None? ==> r == Err(InvalidUuidSyntax)
    ensures Parse(id).Some? && !Stored(st.tasks, Parse(id).value) ==> r == Err(RecordNotFound)
    ensures r.Ok? ==> !r.value.task.archived && r.value.task == GetByID(st, id).value.(archived := false)
    ensures r.Ok? ==> r.value.store == st.(tasks := Replace(st.tasks, r.value.task))
  {
    SetArchived(st, id, false)
  }

  // ---------------------------------------------------------------------
  // Stats

  function CountStatus(ts: seq<Task>, status: string): (n: nat)
    ensures n <= |ts|
  {
    if ts == [] then 0
    else (if ts[0].status == status then 1 else 0) + CountStatus(ts[1..], status)
  }

  /** `Stats`: one count per status in `Statuses`, plus "total" for all tasks. */
  function Stats(st: Store): (r: map<string, int>)
    ensures r.Keys == {"todo", "in_progress", "done", "blocked", "total"}
    ensures r["total"] == |st.tasks|
    ensures forall s :: s in Statuses ==> r[s] == CountStatus(st.tasks, s)
    ensures r["todo"] + r["in_progress"] + r["done"] + r["blocked"] <= r["total"]
  {
    StatusCountsBounded(st.tasks);
    map["todo" := CountStatus(st.tasks, "todo"),
        "in_progress" := CountStatus(st.tasks, "in_progress"),
        "done" := CountStatus(st.tasks, "done"),
        "blocked" := CountStatus(st.tasks, "blocked"),
        "total" := |st.tasks|]
  }

  /** Each task has one status, so the four status counts together never exceed the number of tasks. */
  lemma {:induction false} StatusCountsBounded(ts: seq<Task>)
    ensures CountStatus(ts, "todo") + CountStatus(ts, "in_progress") + CountStatus(ts, "done")
            + CountStatus(ts, "blocked") <= |ts|
  {
    if ts != [] {
      StatusCountsBounded(ts[1..]);
    }
  }
}
