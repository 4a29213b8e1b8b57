/**
 * The persisted entities: a task and the tags attached to it, the column
 * defaults the table declares, and the create hook that assigns an id.
 * Times are integers (nanoseconds since the Unix epoch).
 */
module TaskModel {
  import opened Results
  import opened Uuids

  /** A row of the tag table; the name column carries a unique index. */
  datatype Tag = Tag(id: nat, name: string)

  /**
   * A row of the task table with its preloaded tags. Soft deletion is
   * modelled as absence from the store, so there is no deletion stamp.
   */
  datatype Task = Task(
    id: Uuid,
    title: string,
    content: string,
    status: string,
    priority: string,
    tags: seq<Tag>,
    due: Option<int>,
    archived: bool,
    createdAt: int,
    updatedAt: int)

  const DefaultStatus: string := "todo"
  const DefaultPriority: string := "medium"

  /** `model.Task{}`: every field at its zero value. */
  const ZeroTask: Task := Task(Nil, "", "", "", "", [], None, false, 0, 0)

  /**
   * The `BeforeCreate` hook: a task without an id receives the new id
   * (`uuid.New()`, never the nil UUID); a task that has one keeps it. The
   * hook never fails and touches nothing else.
   */
  function BeforeCreate(t: Task, newId: Uuid): (r: Task)
    requires newId != Nil
    ensures r.id != Nil
    ensures t.id != Nil ==> r.id == t.id
    ensures t.id == Nil ==> r.id == newId
    ensures r.(id := t.id) == t
  {
    if t.id == Nil then t.(id := newId) else t
  }

  /** Running the hook again changes nothing: an assigned id is never replaced. */
  lemma BeforeCreateIdempotent(t: Task, newId: Uuid, newId2: Uuid)
    requires newId != Nil && newId2 != Nil
    ensures BeforeCreate(BeforeCreate(t, newId), newId2) == BeforeCreate(t, newId)
  {
  }

  /**
   * The column defaults applied on insert: an empty status is stored as
   * "todo" and an empty priority as "medium"; `archived` defaults to false,
   * which is already its zero value.
   */
  function WithColumnDefaults(t: Task): (r: Task)
    ensures r.status != "" && r.priority != ""
    ensures t.status != "" ==> r.status == t.status
    ensures t.priority != "" ==> r.priority == t.priority
    ensures t.status == "" ==> r.status == DefaultStatus
    ensures t.priority == "" ==> r.priority == DefaultPriority
    ensures r.(status := t.status, priority := t.priority) == t
  {
    t.(status := if t.status == "" then DefaultStatus else t.status,
       priority := if t.priority == "" then DefaultPriority else t.priority)
  }

  predicate HasTagNamed(t: Task, name: string)
  {
    exists k :: 0 <= k < |t.tags| && t.tags[k].name == name
  }

  // ---------------------------------------------------------------------
  // What the columns accept

  /** The declared widths of the `varchar` columns. */
  const TitleWidth: nat := 255
  const StatusWidth: nat := 50
  const PriorityWidth: nat := 50
  const TagNameWidth: nat := 100

  /** A NUL character, which no Postgres text value may contain. */
  predicate HasNul(s: string)
  {
    exists k :: 0 <= k < |s| && s[k] == '\0'
  }

  /** Everything in `s` from position `n` on is a plain space. */
  predicate SpacesFrom(s: string, n: nat)
  {
    forall k :: n <= k < |s| ==> s[k] == ' '
  }

  /**
   * Storing `s` in a `varchar(n)` column: a value of at most `n` characters
   * is kept; a longer one is cut to `n` characters when all it loses is
   * spaces, and refused otherwise. What is stored is always a prefix of `s`
   * that fits, and only spaces are dropped; a cut value keeps exactly `n`
   * characters.
   */
  function FitVarchar(s: string, n: nat): (r: Result<string>)
    ensures |s| <= n ==> r == Ok(s)
    ensures r.Ok? <==> |s| <= n || SpacesFrom(s, n)
    ensures r.Err? ==> r.error == ValueTooLong
    ensures r.Ok? ==> |r.value| <= n && r.value == s[..|r.value|] && SpacesFrom(s, |r.value|)
    ensures |s| > n && r.Ok? ==> r.value == s[..n]
  {
    if |s| <= n then Ok(s)
    else if SpacesFrom(s, n) then Ok(s[..n])
    else Err(ValueTooLong)
  }

  /** A stored value is stored again unchanged. */
  lemma FitVarcharIdempotent(s: string, n: nat)
    requires FitVarchar(s, n).Ok?
    ensures FitVarchar(FitVarchar(s, n).value, n) == FitVarchar(s, n)
  {
  }

  /** Every column of the row holds a value its column accepts as it is. */
  predicate Fits(t: Task)
  {
    && !HasNul(t.title) && !HasNul(t.content) && !HasNul(t.status) && !HasNul(t.priority)
    && |t.title| <= TitleWidth && |t.status| <= StatusWidth && |t.priority| <= PriorityWidth
  }

  /**
   * The row the database holds after an `INSERT` or `UPDATE` of `t`: a NUL
   * in any text column refuses the statement before it runs; then title,
   * status and priority go through their `varchar` widths. Content is
   * `text` and has no width. The statement either stores every column or
   * none.
   */
  function StoreRow(t: Task): (r: Result<Task>)
    ensures r == Ok(t) <==> Fits(t)
    ensures HasNul(t.title) || HasNul(t.content) || HasNul(t.status) || HasNul(t.priority) ==> r == Err(NulInText)
    ensures r.Err? ==> r.error == NulInText || r.error == ValueTooLong
    ensures !HasNul(t.title) && !HasNul(t.content) && !HasNul(t.status) && !HasNul(t.priority) ==>
              (r.Ok? <==> FitVarchar(t.title, TitleWidth).Ok? && FitVarchar(t.status, StatusWidth).Ok?
                           && FitVarchar(t.priority, PriorityWidth).Ok?)
    ensures r.Ok? ==> && Fits(r.value)
                      && r.value == t.(title := FitVarchar(t.title, TitleWidth).value,
                                       status := FitVarchar(t.status, StatusWidth).value,
                                       priority := FitVarchar(t.priority, PriorityWidth).value)
  {
    if HasNul(t.title) || HasNul(t.content) || HasNul(t.status) || HasNul(t.priority) then Err(NulInText)
    else
      var title :- FitVarchar(t.title, TitleWidth);
      var status :- FitVarchar(t.status, StatusWidth);
      var priority :- FitVarchar(t.priority, PriorityWidth);
      Ok(t.(title := title, status := status, priority := priority))
  }

  /** What is stored is stored again unchanged: the database's rows always fit. */
  lemma StoreRowIdempotent(t: Task)
    requires StoreRow(t).Ok?
    ensures StoreRow(StoreRow(t).value) == StoreRow(t)
  {
  }
}
