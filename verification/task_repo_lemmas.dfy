/**
 * Properties of the repository operations across calls: every mutation
 * keeps the store invariant, archiving round-trips, tag linking is
 * idempotent and undone by unlinking, and the counts agree with the queries.
 */
module TaskRepoLemmas {
  import opened Results
  import opened Uuids
  import opened Text
  import opened TaskModel
  import opened TaskRepo

  // ---------------------------------------------------------------------
  // Helpers about rows

  lemma ReplaceKeepsIds(ts: seq<Task>, row: Task)
    ensures forall i :: 0 <= i < |ts| ==> Replace(ts, row)[i].id == ts[i].id
  {
  }

  lemma {:induction false} SelectKeepsIdsUnique(ts: seq<Task>, p: Task -> bool)
    requires IdsUnique(ts)
    ensures IdsUnique(Select(ts, p))
  {
    if ts != [] {
      SelectKeepsIdsUnique(ts[1..], p);
      if p(ts[0]) {
        var rest := Select(ts[1..], p);
        var r := [ts[0]] + rest;
        forall i, j | 0 <= i < j < |r|
          ensures r[i].id != r[j].id
        {
          if i == 0 {
            assert r[j] in ts[1..];
            var k :| 0 <= k < |ts[1..]| && ts[1..][k] == r[j];
            assert ts[k + 1] == r[j];
          } else {
            assert r[i] == rest[i - 1] && r[j] == rest[j - 1];
          }
        }
      }
    }
  }

  /** Keeping a subset of the rows keeps the invariant. */
  lemma SelectKeepsValid(st: Store, p: Task -> bool)
    requires Valid(st)
    ensures Valid(st.(tasks := Select(st.tasks, p)))
  {
    var r := Select(st.tasks, p);
    SelectKeepsIdsUnique(st.tasks, p);
    forall i | 0 <= i < |r|
      ensures r[i].id != Nil && Fits(r[i]) && TagsOk(r[i].tags, st.tagTable)
    {
      assert r[i] in st.tasks;
      var k :| 0 <= k < |st.tasks| && st.tasks[k] == r[i];
    }
  }

  lemma TagsOkExtend(tags: seq<Tag>, table: map<string, nat>, name: string, id: nat)
    requires name !in table && TagsOk(tags, table)
    ensures TagsOk(tags, table[name := id])
  {
  }

  // ---------------------------------------------------------------------
  // The invariant is kept by every mutation

  lemma CreateKeepsValid(st: Store, t: Task, newId: Uuid)
    requires Valid(st) && newId != Nil
    requires Create(st, t, newId).Ok?
    ensures Valid(Create(st, t, newId).value.store)
  {
    var st' := Create(st, t, newId).value.store;
    var row := Create(st, t, newId).value.task;
    var stored := StoreRow(row).value;
    assert st'.tasks == st.tasks + [stored];
    assert !Stored(st.tasks, stored.id);
    assert Fits(stored) && TagsOk(stored.tags, st.tagTable);
  }

  /** Rewriting columns in place, keeping every row's id and links and fitting every column, keeps the invariant. */
  lemma RewriteKeepsValid(st: Store, ts: seq<Task>)
    requires Valid(st) && |ts| == |st.tasks|
    requires forall i :: 0 <= i < |ts| ==> ts[i].id == st.tasks[i].id && ts[i].tags == st.tasks[i].tags
    requires RowsFit(ts)
    ensures Valid(st.(tasks := ts))
  {
    assert AllTagsOk(ts, st.tagTable) by {
      forall i | 0 <= i < |ts|
        ensures TagsOk(ts[i].tags, st.tagTable)
      {
        assert ts[i].tags == st.tasks[i].tags;
      }
    }
  }

  lemma UpdateKeepsValid(st: Store, t: Task)
    requires Valid(st)
    requires Update(st, t).Ok?
    ensures Valid(Update(st, t).value)
  {
    var st' := Update(st, t).value;
    assert forall i :: 0 <= i < |st.tasks| ==> st'.tasks[i].id == st.tasks[i].id && st'.tasks[i].tags == st.tasks[i].tags;
    assert RowsFit(st'.tasks);
    RewriteKeepsValid(st, st'.tasks);
    assert st' == st.(tasks := st'.tasks);
  }

  lemma DeleteKeepsValid(st: Store, id: string)
    requires Valid(st)
    requires Delete(st, id).Ok?
    ensures Valid(Delete(st, id).value)
  {
    var u := Parse(id).value;
    SelectKeepsValid(st, (t: Task) => t.id != u);
  }

  lemma BulkDeleteKeepsValid(st: Store, ids: seq<string>)
    requires Valid(st)
    requires BulkDelete(st, ids).Ok?
    ensures Valid(BulkDelete(st, ids).value)
  {
    if ids != [] {
      var us := ResolveIds(ids).value;
      SelectKeepsValid(st, (t: Task) => t.id !in us);
    }
  }

  /** Setting a fitting status on some rows, and leaving the rest alone, keeps the invariant. */
  lemma SetStatusKeepsValid(st: Store, ts: seq<Task>, s: string)
    requires Valid(st) && |ts| == |st.tasks|
    requires !HasNul(s) && |s| <= StatusWidth
    requires forall i :: 0 <= i < |ts| ==> ts[i] == st.tasks[i] || ts[i] == st.tasks[i].(status := s)
    ensures Valid(st.(tasks := ts))
  {
    forall i | 0 <= i < |ts|
      ensures ts[i].id == st.tasks[i].id && ts[i].tags == st.tasks[i].tags && Fits(ts[i])
    {
      assert Fits(st.tasks[i]);
    }
    RewriteKeepsValid(st, ts);
  }

  lemma BulkUpdateStatusKeepsValid(st: Store, ids: seq<string>, status: string)
    requires Valid(st)
    requires BulkUpdateStatus(st, ids, status).Ok?
    ensures Valid(BulkUpdateStatus(st, ids, status).value)
  {
    if ids != [] {
      var st' := BulkUpdateStatus(st, ids, status).value;
      var s := FitVarchar(status, StatusWidth).value;
      assert !HasNul(status);
      SetStatusKeepsValid(st, st'.tasks, s);
      assert st' == st.(tasks := st'.tasks);
    }
  }

  lemma SetArchivedKeepsValid(st: Store, id: string, archived: bool)
    requires Valid(st)
    requires SetArchived(st, id, archived).Ok?
    ensures Valid(SetArchived(st, id, archived).value.store)
  {
    var task := GetByID(st, id).value;
    var task' := task.(archived := archived);
    var st' := SetArchived(st, id, archived).value.store;
    assert st'.tasks == Replace(st.tasks, task');
    ReplaceKeepsIds(st.tasks, task');
    assert task in st.tasks;
    assert Fits(task') && TagsOk(task'.tags, st.tagTable);
  }

  /** A successful `AddTag` links the tag to the stored row the id names. */
  lemma AddTagLinks(st: Store, id: string, tag: string) returns (i: nat)
    requires IdsUnique(st.tasks)
    requires AddTag(st, id, tag).Ok?
    ensures i < |st.tasks| && Parse(id) == Some(st.tasks[i].id) && TrimSpace(tag) != []
    ensures AddTag(st, id, tag) == LinkTag(st, st.tasks[i], TrimSpace(tag))
  {
    var task := GetByID(st, id).value;
    i :| 0 <= i < |st.tasks| && st.tasks[i] == task;
  }

  lemma LinkTagKeepsValid(st: Store, i: int, name: string)
    requires Valid(st) && 0 <= i < |st.tasks|
    requires LinkTag(st, st.tasks[i], name).Ok?
    ensures Valid(LinkTag(st, st.tasks[i], name).value.store)
  {
    var task := st.tasks[i];
    var (t, st1) := TagFor(st, name).value;
    var task' := task.(tags := AppendTag(task.tags, t));
    var st' := LinkTag(st, task, name).value.store;
    assert st' == st1.(tasks := Replace(st1.tasks, task'));
    assert TagTableOk(st1.tagTable, st1.nextTagId);
    if name !in st.tagTable {
      forall j | 0 <= j < |st.tasks|
        ensures TagsOk(st.tasks[j].tags, st1.tagTable)
      {
        TagsOkExtend(st.tasks[j].tags, st.tagTable, name, st.nextTagId);
      }
    }
    assert AllTagsOk(st1.tasks, st1.tagTable);
    assert TagsOk(task.tags, st1.tagTable);
    assert TagsOk(task'.tags, st1.tagTable);
    assert Fits(task');
    ReplaceKeepsIds(st1.tasks, task');
  }

  lemma AddTagKeepsValid(st: Store, id: string, tag: string)
    requires Valid(st)
    requires AddTag(st, id, tag).Ok?
    ensures Valid(AddTag(st, id, tag).value.store)
  {
    var i := AddTagLinks(st, id, tag);
    LinkTagKeepsValid(st, i, TrimSpace(tag));
  }

  lemma RemoveTagKeepsValid(st: Store, id: string, tag: string)
    requires Valid(st)
    requires RemoveTag(st, id, tag).Ok?
    ensures Valid(RemoveTag(st, id, tag).value.store)
  {
    var task := GetByID(st, id).value;
    var tagId := st.tagTable[tag];
    var task' := RemoveTag(st, id, tag).value.task;
    var st' := RemoveTag(st, id, tag).value.store;
    assert st'.tasks == Replace(st.tasks, task');
    assert task in st.tasks;
    assert Fits(task');
    assert task' == task.(tags := SelectTags(task.tags, (x: Tag) => x.id != tagId));
    assert TagsOk(task'.tags, st.tagTable) by {
      SelectTagsKeepsTagsOk(task.tags, st.tagTable, (x: Tag) => x.id != tagId);
    }
    ReplaceKeepsIds(st.tasks, task');
  }

  lemma {:induction false} SelectTagsKeepsTagsOk(tags: seq<Tag>, table: map<string, nat>, p: Tag -> bool)
    requires TagsOk(tags, table)
    ensures TagsOk(SelectTags(tags, p), table)
  {
    if tags != [] {
      SelectTagsKeepsTagsOk(tags[1..], table, p);
      var rest := SelectTags(tags[1..], p);
      if p(tags[0]) {
        var r := [tags[0]] + rest;
        forall k, l | 0 <= k < l < |r|
          ensures r[k].id != r[l].id
        {
          if k == 0 {
            assert r[l] in tags[1..];
            var m :| 0 <= m < |tags[1..]| && tags[1..][m] == r[l];
            assert tags[m + 1] == r[l];
          } else {
            assert r[k] == rest[k - 1] && r[l] == rest[l - 1];
          }
        }
        forall k | 0 <= k < |r|
          ensures r[k].name in table && table[r[k].name] == r[k].id
        {
          if k > 0 {
            assert r[k] == rest[k - 1];
          }
        }
      }
    }
  }

  // ---------------------------------------------------------------------
  // Tag linking

  /** After removal the task carries no tag with that name; the tag row itself stays. */
  lemma RemoveTagDropsName(st: Store, id: string, tag: string)
    requires Valid(st)
    requires RemoveTag(st, id, tag).Ok?
    ensures !HasTagNamed(RemoveTag(st, id, tag).value.task, tag)
    ensures tag in RemoveTag(st, id, tag).value.store.tagTable
  {
    var task := GetByID(st, id).value;
    var i :| 0 <= i < |st.tasks| && st.tasks[i] == task;
    assert TagsOk(task.tags, st.tagTable);
    var task' := RemoveTag(st, id, tag).value.task;
    forall k | 0 <= k < |task'.tags|
      ensures task'.tags[k].name != tag
    {
      var x := task'.tags[k];
      assert x in task'.tags;
      var m :| 0 <= m < |task.tags| && task.tags[m] == x;
    }
  }

  /** A task without tags carries exactly the new one after `AddTag`. */
  lemma AddTagToUntagged(st: Store, id: string, tag: string)
    requires AddTag(st, id, tag).Ok?
    requires GetByID(st, id).value.tags == []
    ensures var t := AddTag(st, id, tag).value.task;
            |t.tags| == 1 && t.tags[0].name == TrimSpace(tag)
  {
    var task := AddTagIsLink(st, id, tag);
    LinkTagToUntagged(st, task, TrimSpace(tag));
  }

  /** A successful `AddTag` is `LinkTag` applied to the task the id reads. */
  lemma AddTagIsLink(st: Store, id: string, tag: string) returns (task: Task)
    requires AddTag(st, id, tag).Ok?
    ensures GetByID(st, id) == Ok(task)
    ensures AddTag(st, id, tag) == LinkTag(st, task, TrimSpace(tag))
  {
    task := GetByID(st, id).value;
  }

  lemma LinkTagToUntagged(st: Store, task: Task, name: string)
    requires task.tags == []
    requires LinkTag(st, task, name).Ok?
    ensures var t := LinkTag(st, task, name).value.task;
            |t.tags| == 1 && t.tags[0].name == name
  {
    var tag := TagFor(st, name).value.0;
    assert AppendTag(task.tags, tag) == [tag];
  }

  /** Linking a tag to a row that already carries it changes nothing. */
  lemma LinkTagAgain(st: Store, i: int, name: string)
    requires Valid(st) && 0 <= i < |st.tasks|
    requires LinkTag(st, st.tasks[i], name).Ok?
    ensures var s := LinkTag(st, st.tasks[i], name).value;
            LinkTag(s.store, s.store.tasks[i], name) == Ok(s)
  {
    var task := st.tasks[i];
    var (t, st1) := TagFor(st, name).value;
    var s := LinkTag(st, task, name).value;
    ReplaceKeepsIds(st1.tasks, s.task);
    assert s.store.tasks[i] == s.task;
    assert TagFor(s.store, name) == Ok((t, s.store));
    assert t in s.task.tags;
    assert AppendTag(s.task.tags, t) == s.task.tags;
    assert Replace(s.store.tasks, s.task) == s.store.tasks;
  }

  /** Adding the same tag twice is the same as adding it once. */
  lemma AddTagIdempotent(st: Store, id: string, tag: string)
    requires Valid(st)
    requires AddTag(st, id, tag).Ok?
    ensures AddTag(AddTag(st, id, tag).value.store, id, tag) == AddTag(st, id, tag)
  {
    var i := AddTagLinks(st, id, tag);
    var s := LinkTag(st, st.tasks[i], TrimSpace(tag)).value;
    LinkTagKeepsValid(st, i, TrimSpace(tag));
    ReplaceKeepsIds(st.tasks, s.task);
    assert s.store.tasks[i].id == st.tasks[i].id;
    FindUnique(s.store.tasks, i);
    LinkTagAgain(st, i, TrimSpace(tag));
  }

  /**
   * Linking a tag the row did not carry and then unlinking it gives back
   * the row as it was.
   */
  lemma LinkThenUnlink(st: Store, i: int, name: string)
    requires Valid(st) && 0 <= i < |st.tasks|
    requires !HasTagNamed(st.tasks[i], name)
    requires LinkTag(st, st.tasks[i], name).Ok?
    ensures var s := LinkTag(st, st.tasks[i], name).value;
            && name in s.store.tagTable
            && s.task.(tags := SelectTags(s.task.tags, (x: Tag) => x.id != s.store.tagTable[name])) == st.tasks[i]
  {
    var task := st.tasks[i];
    var (t, st1) := TagFor(st, name).value;
    var s := LinkTag(st, task, name).value;
    assert t !in task.tags;
    assert s.task.tags == task.tags + [t];
    var tagId := s.store.tagTable[name];
    assert tagId == t.id;
    assert forall k :: 0 <= k < |task.tags| ==> task.tags[k].id != tagId;
    SelectTagsAllButLast(task.tags, t, (x: Tag) => x.id != tagId);
  }

  /**
   * Linking a tag the task did not carry and then unlinking it by its
   * trimmed name gives back the task as it was.
   */
  lemma AddThenRemoveTag(st: Store, id: string, tag: string)
    requires Valid(st)
    requires AddTag(st, id, tag).Ok?
    requires !HasTagNamed(GetByID(st, id).value, TrimSpace(tag))
    ensures RemoveTag(AddTag(st, id, tag).value.store, id, TrimSpace(tag)).Ok?
    ensures RemoveTag(AddTag(st, id, tag).value.store, id, TrimSpace(tag)).value.task == GetByID(st, id).value
  {
    var name := TrimSpace(tag);
    var i := AddTagLinks(st, id, tag);
    GetByIDAt(st, id, i);
    LinkTagRow(st, i, name);
    var s := LinkTag(st, st.tasks[i], name).value;
    RemoveTagAt(s.store, id, name, i);
    LinkThenUnlink(st, i, name);
  }

  /** The row an id names is what `GetByID` returns for it. */
  lemma GetByIDAt(st: Store, id: string, i: int)
    requires IdsUnique(st.tasks) && 0 <= i < |st.tasks| && Parse(id) == Some(st.tasks[i].id)
    ensures GetByID(st, id) == Ok(st.tasks[i])
  {
    FindUnique(st.tasks, i);
  }

  /** After `LinkTag` the row sits where it was, and the ids stay unique. */
  lemma LinkTagRow(st: Store, i: int, name: string)
    requires Valid(st) && 0 <= i < |st.tasks|
    requires LinkTag(st, st.tasks[i], name).Ok?
    ensures var s := LinkTag(st, st.tasks[i], name).value;
            && |s.store.tasks| == |st.tasks| && s.store.tasks[i] == s.task
            && s.task.id == st.tasks[i].id && Valid(s.store)
            && !HasNul(name)
  {
    var s := LinkTag(st, st.tasks[i], name).value;
    LinkTagKeepsValid(st, i, name);
    ReplaceKeepsIds(st.tasks, s.task);
  }

  /** `RemoveTag` on the row an id names, for a tag the table holds. */
  lemma RemoveTagAt(st: Store, id: string, tag: string, i: int)
    requires IdsUnique(st.tasks) && 0 <= i < |st.tasks| && Parse(id) == Some(st.tasks[i].id)
    requires tag in st.tagTable && !HasNul(tag)
    ensures RemoveTag(st, id, tag).Ok?
    ensures RemoveTag(st, id, tag).value.task
            == st.tasks[i].(tags := SelectTags(st.tasks[i].tags, (x: Tag) => x.id != st.tagTable[tag]))
  {
    GetByIDAt(st, id, i);
  }

  lemma {:induction false} SelectTagsAllButLast(tags: seq<Tag>, t: Tag, p: Tag -> bool)
    requires forall k :: 0 <= k < |tags| ==> p(tags[k])
    requires !p(t)
    ensures SelectTags(tags + [t], p) == tags
  {
    if tags == [] {
      assert [t][1..] == [];
    } else {
      assert (tags + [t])[1..] == tags[1..] + [t];
      SelectTagsAllButLast(tags[1..], t, p);
    }
  }

  // ---------------------------------------------------------------------
  // Reads after writes

  /** A deleted task is no longer found by its id. */
  lemma DeleteThenGet(st: Store, id: string)
    requires Delete(st, id).Ok?
    ensures GetByID(Delete(st, id).value, id) == Err(RecordNotFound)
  {
    var st' := Delete(st, id).value;
    var u := Parse(id).value;
    if Stored(st'.tasks, u) {
      var i :| 0 <= i < |st'.tasks| && st'.tasks[i].id == u;
    }
  }

  /** After `AddTag` the task is found under the trimmed tag name. */
  lemma AddTagThenFindByTag(st: Store, id: string, tag: string)
    requires Valid(st)
    requires AddTag(st, id, tag).Ok?
    ensures var s := AddTag(st, id, tag).value;
            s.task in FindByTag(s.store, TrimSpace(tag))
  {
    var i := AddTagLinks(st, id, tag);
    LinkTagRow(st, i, TrimSpace(tag));
    var s := LinkTag(st, st.tasks[i], TrimSpace(tag)).value;
    assert s.store.tasks[i] in s.store.tasks;
  }

  /** After a bulk delete, no listed id is found any more. */
  lemma BulkDeleteThenGet(st: Store, ids: seq<string>, k: int)
    requires BulkDelete(st, ids).Ok?
    requires 0 <= k < |ids|
    ensures GetByID(BulkDelete(st, ids).value, ids[k]) == Err(RecordNotFound)
  {
    var st' := BulkDelete(st, ids).value;
    var u := Parse(ids[k]).value;
    assert Listed(ids, u);
    if Stored(st'.tasks, u) {
      var i :| 0 <= i < |st'.tasks| && st'.tasks[i].id == u;
    }
  }

  /**
   * Every listed task that was stored is found under the new status as the
   * column stored it, which is the status itself when it fits the column.
   */
  lemma BulkUpdateStatusThenFind(st: Store, ids: seq<string>, status: string, i: int)
    requires BulkUpdateStatus(st, ids, status).Ok?
    requires 0 <= i < |st.tasks| && Listed(ids, st.tasks[i].id)
    ensures FitVarchar(status, StatusWidth).Ok?
    ensures var s := FitVarchar(status, StatusWidth).value;
            st.tasks[i].(status := s) in FindByStatus(BulkUpdateStatus(st, ids, status).value, s)
    ensures |status| <= StatusWidth ==>
              st.tasks[i].(status := status) in FindByStatus(BulkUpdateStatus(st, ids, status).value, status)
  {
    var st' := BulkUpdateStatus(st, ids, status).value;
    var s := FitVarchar(status, StatusWidth).value;
    assert st'.tasks[i] == st.tasks[i].(status := s);
  }

  /** Search answers the same for a query and its trimmed form. */
  lemma SearchIgnoresSurroundingSpace(st: Store, q: string, fold: char -> char)
    ensures Search(st, q, fold) == Search(st, TrimSpace(q), fold)
  {
    TrimSpaceIdempotent(q);
  }

  // ---------------------------------------------------------------------
  // Archiving

  /**
   * Archiving then unarchiving leaves the task unarchived with every other
   * field as it was; a task that was not archived is back exactly where it
   * started, and so is the store.
   */
  lemma ArchiveUnarchive(st: Store, id: string)
    requires Valid(st)
    requires Archive(st, id).Ok?
    ensures Unarchive(Archive(st, id).value.store, id).Ok?
    ensures Unarchive(Archive(st, id).value.store, id).value.task == GetByID(st, id).value.(archived := false)
    ensures !GetByID(st, id).value.archived ==>
              Unarchive(Archive(st, id).value.store, id).value.store == st
  {
    var task := GetByID(st, id).value;
    var i :| 0 <= i < |st.tasks| && st.tasks[i] == task;
    GetByIDAt(st, id, i);
    SetArchivedAt(st, id, true, i);
    var t1 := task.(archived := true);
    var st1 := st.(tasks := Replace(st.tasks, t1));
    assert Archive(st, id) == Ok(Saved(t1, st1));
    ReplaceKeepsIdsUnique(st.tasks, t1);
    assert st1.tasks[i] == t1;
    SetArchivedAt(st1, id, false, i);
    var t2 := t1.(archived := false);
    assert Unarchive(st1, id) == Ok(Saved(t2, st1.(tasks := Replace(st1.tasks, t2))));
    if !task.archived {
      assert t2 == task;
      ReplaceTwice(st.tasks, t1, task);
      ReplaceSelf(st.tasks, i);
    }
  }

  lemma ReplaceKeepsIdsUnique(ts: seq<Task>, row: Task)
    requires IdsUnique(ts)
    ensures IdsUnique(Replace(ts, row))
  {
    ReplaceKeepsIds(ts, row);
  }

  /** `SetArchived` on the row an id names. */
  lemma SetArchivedAt(st: Store, id: string, archived: bool, i: int)
    requires IdsUnique(st.tasks) && 0 <= i < |st.tasks| && Parse(id) == Some(st.tasks[i].id)
    ensures SetArchived(st, id, archived)
            == Ok(Saved(st.tasks[i].(archived := archived),
                        st.(tasks := Replace(st.tasks, st.tasks[i].(archived := archived)))))
  {
    GetByIDAt(st, id, i);
  }

  /** A second overwrite of the same row wins over the first. */
  lemma ReplaceTwice(ts: seq<Task>, r1: Task, r2: Task)
    requires r1.id == r2.id
    ensures Replace(Replace(ts, r1), r2) == Replace(ts, r2)
  {
  }

  /** Overwriting a row with itself changes nothing. */
  lemma ReplaceSelf(ts: seq<Task>, i: int)
    requires IdsUnique(ts) && 0 <= i < |ts|
    ensures Replace(ts, ts[i]) == ts
  {
    assert forall j :: 0 <= j < |ts| && ts[j].id == ts[i].id ==> j == i;
  }

  // ---------------------------------------------------------------------
  // Counts and queries agree

  lemma {:induction false} CountIsFindByStatus(ts: seq<Task>, status: string)
    ensures CountStatus(ts, status) == |FindByStatus(Store(ts, map[], 0), status)|
  {
    if ts != [] {
      CountIsFindByStatus(ts[1..], status);
    }
  }

  /** Each status count in `Stats` is the number of tasks `FindByStatus` returns for it. */
  lemma StatsAgreeWithFindByStatus(st: Store, status: string)
    requires status in Statuses
    ensures Stats(st)[status] == |FindByStatus(st, status)|
  {
    CountIsFindByStatus(st.tasks, status);
  }

  // ---------------------------------------------------------------------
  // How often a query lists a row

  /** A filter keeps every copy of a row that passes it and no copy of one that does not. */
  lemma {:induction false} SelectCount(ts: seq<Task>, p: Task -> bool, t: Task)
    ensures multiset(Select(ts, p))[t] == if p(t) then multiset(ts)[t] else 0
  {
    if ts != [] {
      SelectCount(ts[1..], p, t);
      assert ts == [ts[0]] + ts[1..];
      assert multiset(ts) == multiset([ts[0]]) + multiset(ts[1..]);
      if p(ts[0]) {
        assert multiset(Select(ts, p)) == multiset([ts[0]]) + multiset(Select(ts[1..], p));
      }
    }
  }

  /**
   * The three column filters list a matching row as often as it is stored
   * and a row that does not match not at all.
   */
  lemma FiltersListRowsOnce(st: Store, status: string, priority: string, name: string, t: Task)
    ensures multiset(FindByStatus(st, status))[t] == if t.status == status then multiset(st.tasks)[t] else 0
    ensures multiset(FindByPriority(st, priority))[t] == if t.priority == priority then multiset(st.tasks)[t] else 0
    ensures multiset(FindByTag(st, name))[t] == if HasTagNamed(t, name) then multiset(st.tasks)[t] else 0
  {
    SelectCount(st.tasks, (x: Task) => x.status == status, t);
    SelectCount(st.tasks, (x: Task) => x.priority == priority, t);
    SelectCount(st.tasks, (x: Task) => exists k :: 0 <= k < |x.tags| && x.tags[k].name == name, t);
  }

  /** Search lists a matching row as often as it is stored and nothing for a blank query. */
  lemma SearchListsRowsOnce(st: Store, q: string, fold: char -> char, t: Task)
    ensures multiset(Search(st, q, fold))[t] ==
              if !IsBlank(q) && Matches(t, TrimSpace(q), fold) then multiset(st.tasks)[t] else 0
  {
    var q' := TrimSpace(q);
    if q' != "" {
      SelectCount(st.tasks, (x: Task) => Like(x.title, SearchPattern(q'), fold) || Like(x.content, SearchPattern(q'), fold), t);
    }
  }

  /** Today's list holds a row due today as often as it is stored. */
  lemma TodayListsRowsOnce(st: Store, now: int, t: Task)
    ensures multiset(GetToday(st, now))[t] ==
              if t.due.Some? && t.due.value / Day == now / Day then multiset(st.tasks)[t] else 0
  {
    var start := DayStart(now);
    var inWindow := (x: Task) => x.due.Some? && start <= x.due.value <= start + Day - 1;
    assert GetToday(st, now) == Select(st.tasks, inWindow);
    SelectCount(st.tasks, inWindow, t);
    SameDayWindow(now);
    assert inWindow(t) <==> t.due.Some? && t.due.value / Day == now / Day;
  }

  /** The overdue list holds a late, unfinished row as often as it is stored. */
  lemma OverdueListsRowsOnce(st: Store, now: int, t: Task)
    ensures multiset(GetOverdue(st, now))[t] ==
              if t.due.Some? && t.due.value < now && t.status != "done" then multiset(st.tasks)[t] else 0
  {
    SelectCount(st.tasks, (x: Task) => x.due.Some? && x.due.value < now && x.status != "done", t);
  }

  /** With unique ids a row is stored once, so no query lists it twice. */
  lemma StoredRowOnce(st: Store, t: Task)
    requires IdsUnique(st.tasks)
    ensures multiset(st.tasks)[t] <= 1
  {
    UniqueRowsOnce(st.tasks, t);
  }

  lemma {:induction false} UniqueRowsOnce(ts: seq<Task>, t: Task)
    requires IdsUnique(ts)
    ensures multiset(ts)[t] <= 1
  {
    if ts != [] {
      var rest := ts[1..];
      assert IdsUnique(rest) by {
        forall i, j | 0 <= i < j < |rest|
          ensures rest[i].id != rest[j].id
        {
          assert rest[i] == ts[i + 1] && rest[j] == ts[j + 1];
        }
      }
      UniqueRowsOnce(rest, t);
      assert ts == [ts[0]] + rest;
      assert multiset(ts) == multiset([ts[0]]) + multiset(rest);
      if ts[0] == t {
        assert t !in rest by {
          forall j | 0 <= j < |rest|
            ensures rest[j] != t
          {
            assert rest[j] == ts[j + 1];
          }
        }
      }
    }
  }
}
