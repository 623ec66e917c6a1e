/**
 * The five handlers of controllers/taskController.js over the task
 * collection. The collection is a map from ObjectId value to record; the
 * functions below give each handler's response and the collection after
 * it, and the class TaskStore performs them in place.
 */
module TaskController {
  import opened Wrappers
  import opened JsStrings
  import opened ObjectIds
  import opened TaskModel

  /** The fixed messages the handlers answer with. */
  datatype Notice = RequiredFields | InvalidStatusValue | InvalidTaskId | TaskNotFound | TaskDeleted {
    /** The `message` field of the JSON body. */
    function Text(): string {
      match this
      case RequiredFields => "Title, description, and due date are required."
      case InvalidStatusValue => "Invalid status value. Must be pending, in-progress, or completed."
      case InvalidTaskId => "Invalid Task ID"
      case TaskNotFound => "Task not found"
      case TaskDeleted => "Task deleted successfully"
    }
  }

  /** The JSON a handler sends. A failed save reaches the error middleware. */
  datatype Body =
    | Record(task: Task)
    | Records(tasks: seq<Task>)
    | Message(notice: Notice)
    | ValidationFailure(errors: seq<SchemaError>)

  datatype Response = Response(code: nat, body: Body)

  /** The task collection, keyed by ObjectId value. */
  type Store = map<nat, Task>

  /** A handler's response and the collection it leaves behind. */
  datatype Outcome = Outcome(response: Response, store: Store)

  /**
   * The collection invariant: every key was issued before `next`, a
   * record's id is its key, and its title and description have been
   * through the trim setters.
   */
  ghost predicate WellKeyed(m: Store, next: nat) {
    && next <= IdSpace
    && (forall k :: k in m ==> k < next)
    && IdsMatchKeys(m)
    && TrimmedTexts(m)
  }

  /** A record's id is its key, and fits in an ObjectId. */
  ghost predicate IdsMatchKeys(m: Store) {
    forall k :: k in m ==> k < IdSpace && m[k].id == k
  }

  /** No stored title or description has whitespace at either end. */
  ghost predicate TrimmedTexts(m: Store) {
    forall k :: k in m ==> NoOuterWhitespace(m[k].title) && NoOuterWhitespace(m[k].description)
  }

  /** Inserting a trimmed record under the counter value keeps the invariant; the key is fresh. */
  lemma InsertFresh(m: Store, next: nat, t: Task)
    requires WellKeyed(m, next) && next < IdSpace && t.id == next
    requires NoOuterWhitespace(t.title) && NoOuterWhitespace(t.description)
    ensures next !in m && WellKeyed(m[next := t], next + 1)
  {
  }

  /** JavaScript falsiness of a body field that is absent or a string. */
  predicate Falsy(o: Option<string>) {
    o.None? || o.value == ""
  }

  /**
   * The first guard of createTask. It never turns away a body the schema
   * would accept.
   */
  predicate LacksRequiredField(input: TaskInput): (b: bool)
    ensures b ==> !AcceptableInput(input)
    ensures !b ==> input.title.Some? && input.description.Some? && input.dueDate.Some?
  {
    Falsy(input.title) || Falsy(input.description) || Falsy(input.dueDate)
  }

  /**
   * The second guard: a truthy status outside the enum. An absent status
   * passes it, and it refuses only bodies the schema would refuse too.
   */
  predicate HasInvalidStatus(input: TaskInput): (b: bool)
    ensures b ==> !AcceptableInput(input)
    ensures input.status.None? ==> !b
  {
    input.status.Some? && input.status.value != "" && !IsStatus(input.status.value)
  }

  /**
   * createTask: the two guards, then `new Task(...)` and `save()`, which
   * validates; a failed validation is passed to `next` and answered with 500.
   * A successful save stores the record under the fresh key `next`.
   */
  function CreateTask(m: Store, next: nat, input: TaskInput, now: nat): (o: Outcome)
    requires WellKeyed(m, next) && next < IdSpace
    ensures o.response.code in {201, 400, 500}
    ensures o.response.code != 201 ==> o.store == m
    ensures o.response.code == 201 ==>
      && next !in m
      && o.response.body.Record?
      && o.response.body.task.id == next
      && o.store == m[next := o.response.body.task]
      && WellKeyed(o.store, next + 1)
  {
    if LacksRequiredField(input) then
      Outcome(Response(400, Message(RequiredFields)), m)
    else if HasInvalidStatus(input) then
      Outcome(Response(400, Message(InvalidStatusValue)), m)
    else
      var draft := Normalize(input);
      var errors := ValidationErrors(draft);
      if errors != [] then
        Outcome(Response(500, ValidationFailure(errors)), m)
      else
        var t := NewRecord(draft, next, now);
        InsertFresh(m, next, t);
        Outcome(Response(201, Record(t)), m[next := t])
  }

  /**
   * Task.find(): every record, in ascending key order (creation order, since
   * keys come from a counter); `n` bounds the keys.
   */
  function Listing(m: Store, n: nat): (r: seq<Task>)
    ensures |r| <= n
  {
    if n == 0 then []
    else
      var prefix := Listing(m, n - 1);
      if n - 1 in m then prefix + [m[n - 1]] else prefix
  }

  /** The listing holds exactly the records stored under keys below n. */
  lemma {:induction false} ListingContents(m: Store, n: nat)
    ensures forall k :: k in m && k < n ==> m[k] in Listing(m, n)
    ensures forall t :: t in Listing(m, n) ==> exists k :: k in m && k < n && m[k] == t
  {
    if n > 0 {
      ListingContents(m, n - 1);
      var prefix := Listing(m, n - 1);
      if n - 1 in m {
        assert Listing(m, n) == prefix + [m[n - 1]];
      } else {
        assert Listing(m, n) == prefix;
      }
    }
  }

  /** getAllTasks. */
  function GetAllTasks(m: Store, next: nat): (r: Response)
    ensures r.code == 200 && r.body.Records?
    ensures forall t :: t in r.body.tasks <==> exists k :: k in m && k < next && m[k] == t
  {
    ListingContents(m, next);
    Response(200, Records(Listing(m, next)))
  }

  /** Under the invariant the listing is unfiltered: it holds every stored record. */
  lemma ListsEveryRecord(m: Store, next: nat)
    requires WellKeyed(m, next)
    ensures forall t :: t in GetAllTasks(m, next).body.tasks <==> t in m.Values
  {
  }

  /**
   * The key a valid id text denotes, as the ObjectId cast reads it: the
   * text the stored record's id is sent back as is the request's text in
   * lower case.
   */
  function KeyOf(id: string): (k: nat)
    requires IsValidId(id)
    ensures k < IdSpace && HexId(k) == ToLower(id)
  {
    HexIdOfValidId(id);
    HexValue(id)
  }

  /** getTaskById: the id check comes before the lookup. */
  function GetTaskById(m: Store, id: string): (r: Response)
    ensures r.code in {200, 400, 404}
    ensures r.code == 200 <==> IsValidId(id) && KeyOf(id) in m
    ensures r.code == 200 ==> r.body == Record(m[KeyOf(id)])
  {
    if !IsValidId(id) then Response(400, Message(InvalidTaskId))
    else if KeyOf(id) !in m then Response(404, Message(TaskNotFound))
    else Response(200, Record(m[KeyOf(id)]))
  }

  /**
   * findByIdAndUpdate(id, body, {new: true}) without validators: each field
   * present in the body replaces the stored one (title and description
   * through their trim setters); `updatedAt` becomes the current time.
   */
  function ApplyPatch(t: Task, patch: TaskInput, now: nat): (u: Task)
    ensures u.id == t.id && u.createdAt == t.createdAt && u.updatedAt == now
    ensures patch.title.None? ==> u.title == t.title
    ensures patch.title.Some? ==> NoOuterWhitespace(u.title) && |u.title| <= |patch.title.value|
    ensures patch.description.None? ==> u.description == t.description
    ensures patch.description.Some? ==>
      NoOuterWhitespace(u.description) && |u.description| <= |patch.description.value|
    ensures u.status == (if patch.status.Some? then patch.status.value else t.status)
    ensures u.dueDate == (if patch.dueDate.Some? then patch.dueDate.value else t.dueDate)
  {
    t.(
      title := match patch.title case Some(s) => Trim(s) case None => t.title,
      description := match patch.description case Some(s) => Trim(s) case None => t.description,
      status := match patch.status case Some(s) => s case None => t.status,
      dueDate := match patch.dueDate case Some(s) => s case None => t.dueDate,
      updatedAt := now)
  }

  /** updateTask. */
  function UpdateTask(m: Store, id: string, patch: TaskInput, now: nat): (o: Outcome)
    ensures o.response.code in {200, 400, 404}
    ensures o.response.code != 200 ==> o.store == m
    ensures o.response.code == 200 <==> IsValidId(id) && KeyOf(id) in m
    ensures o.response.code == 200 ==>
      var k := KeyOf(id);
      var u := ApplyPatch(m[k], patch, now);
      o.response.body == Record(u) && o.store == m[k := u]
  {
    if !IsValidId(id) then Outcome(Response(400, Message(InvalidTaskId)), m)
    else if KeyOf(id) !in m then Outcome(Response(404, Message(TaskNotFound)), m)
    else
      var u := ApplyPatch(m[KeyOf(id)], patch, now);
      Outcome(Response(200, Record(u)), m[KeyOf(id) := u])
  }

  /** deleteTask: a hard removal. */
  function DeleteTask(m: Store, id: string): (o: Outcome)
    ensures o.response.code in {200, 400, 404}
    ensures o.response.code != 200 ==> o.store == m
    ensures o.response.code == 200 <==> IsValidId(id) && KeyOf(id) in m
    ensures o.response.code == 200 ==>
      o.response.body == Message(TaskDeleted) && o.store == m - {KeyOf(id)}
  {
    if !IsValidId(id) then Outcome(Response(400, Message(InvalidTaskId)), m)
    else if KeyOf(id) !in m then Outcome(Response(404, Message(TaskNotFound)), m)
    else Outcome(Response(200, Message(TaskDeleted)), m - {KeyOf(id)})
  }

  // ----- Properties of the handlers -----

  /** A missing or empty required field is reported first, whatever the status. */
  lemma RequiredFieldsCheckedFirst(m: Store, next: nat, input: TaskInput, now: nat)
    requires WellKeyed(m, next) && next < IdSpace
    requires LacksRequiredField(input)
    ensures CreateTask(m, next, input, now) == Outcome(Response(400, Message(RequiredFields)), m)
  {
  }

  /** With the required fields present, a truthy status outside the enum is a 400. */
  lemma InvalidStatusRejected(m: Store, next: nat, input: TaskInput, now: nat)
    requires WellKeyed(m, next) && next < IdSpace
    requires !LacksRequiredField(input)
    ensures CreateTask(m, next, input, now).response == Response(400, Message(InvalidStatusValue))
      <==> HasInvalidStatus(input)
    ensures HasInvalidStatus(input) ==> CreateTask(m, next, input, now).store == m
  {
  }

  /**
   * An empty status is falsy, so it passes the controller's status check;
   * the enum validator of the save then rejects it.
   */
  lemma EmptyStatusFailsOnSave(m: Store, next: nat, input: TaskInput, now: nat)
    requires WellKeyed(m, next) && next < IdSpace
    requires !LacksRequiredField(input) && input.status == Some("")
    ensures var o := CreateTask(m, next, input, now);
      o.response.code == 500 && o.store == m
      && o.response.body.ValidationFailure? && InvalidStatus("") in o.response.body.errors
  {
  }

  /** A body createTask accepts, in terms of the body alone. */
  predicate AcceptableInput(input: TaskInput) {
    && input.title.Some? && Utf16Length(Trim(input.title.value)) >= MinTitleLength
    && input.description.Some? && Trim(input.description.value) != ""
    && (input.status.None? || IsStatus(input.status.value))
    && input.dueDate.Some? && input.dueDate.value != ""
  }

  /**
   * createTask answers 201 exactly for acceptable bodies, and the record it
   * stores holds the trimmed texts, the status or its default, both
   * timestamps set to the current time, and an id no stored record has.
   */
  lemma CreateSucceedsExactly(m: Store, next: nat, input: TaskInput, now: nat)
    requires WellKeyed(m, next) && next < IdSpace
    ensures CreateTask(m, next, input, now).response.code == 201 <==> AcceptableInput(input)
    ensures AcceptableInput(input) ==>
      var t := CreateTask(m, next, input, now).response.body.task;
      && t == Task(next, Trim(input.title.value), Trim(input.description.value),
                   if input.status.None? then Pending else input.status.value,
                   input.dueDate.value, now, now)
      && IsValidRecord(t)
      && forall k :: k in m ==> m[k].id != t.id
  {
    var d := Normalize(input);
    if AcceptableInput(input) {
      assert ConformsToSchema(d);
      CreatedRecordIsValid(input, next, now);
    } else if !LacksRequiredField(input) && !HasInvalidStatus(input) {
      assert !ConformsToSchema(d);
    }
  }

  /** A created record can be fetched by the id text in the response. */
  lemma CreateThenGet(m: Store, next: nat, input: TaskInput, now: nat)
    requires WellKeyed(m, next) && next < IdSpace
    requires CreateTask(m, next, input, now).response.code == 201
    ensures var o := CreateTask(m, next, input, now);
      GetTaskById(o.store, HexId(o.response.body.task.id)) == Response(200, o.response.body)
  {
    HexIdRoundTrip(next);
  }

  /** A malformed id is answered with 400 before the collection is consulted. */
  lemma InvalidIdRejectedBeforeLookup(m: Store, id: string, patch: TaskInput, now: nat)
    requires !IsValidId(id)
    ensures GetTaskById(m, id) == Response(400, Message(InvalidTaskId))
    ensures UpdateTask(m, id, patch, now) == Outcome(Response(400, Message(InvalidTaskId)), m)
    ensures DeleteTask(m, id) == Outcome(Response(400, Message(InvalidTaskId)), m)
  {
  }

  /** A well-formed id that denotes no record is answered with 404. */
  lemma UnknownIdNotFound(m: Store, id: string, patch: TaskInput, now: nat)
    requires IsValidId(id) && KeyOf(id) !in m
    ensures GetTaskById(m, id) == Response(404, Message(TaskNotFound))
    ensures UpdateTask(m, id, patch, now) == Outcome(Response(404, Message(TaskNotFound)), m)
    ensures DeleteTask(m, id) == Outcome(Response(404, Message(TaskNotFound)), m)
  {
  }

  /** The body with no schema field in it. */
  const EmptyPatch: TaskInput := TaskInput(None, None, None, None)

  /** A body naming only the status changes only the status (and the update time). */
  lemma StatusOnlyPatch(t: Task, status: string, now: nat)
    ensures ApplyPatch(t, EmptyPatch.(status := Some(status)), now) == t.(status := status, updatedAt := now)
    ensures ApplyPatch(t, EmptyPatch, now) == t.(updatedAt := now)
  {
  }

  /** Sending the same body twice leaves the record as sending it once. */
  lemma PatchIdempotent(t: Task, patch: TaskInput, now: nat)
    ensures ApplyPatch(ApplyPatch(t, patch, now), patch, now) == ApplyPatch(t, patch, now)
  {
    var u := ApplyPatch(t, patch, now);
    var v := ApplyPatch(u, patch, now);
    assert v.title == u.title by {
      if patch.title.Some? { TrimIdempotent(patch.title.value); }
    }
    assert v.description == u.description by {
      if patch.description.Some? { TrimIdempotent(patch.description.value); }
    }
  }

  /**
   * An update changes one record: fields present in the body take the sent
   * value (title and description trimmed), fields absent from it keep
   * theirs, createdAt is kept, and every other record is untouched.
   */
  lemma UpdateChangesOnlyItsRecord(m: Store, id: string, patch: TaskInput, now: nat)
    requires KeyOf.requires(id) && UpdateTask(m, id, patch, now).response.code == 200
    ensures var o := UpdateTask(m, id, patch, now);
      var old_ := m[KeyOf(id)];
      var new_ := o.response.body.task;
      && o.store.Keys == m.Keys
      && (forall k :: k in m && k != KeyOf(id) ==> o.store[k] == m[k])
      && (patch.title.None? ==> new_.title == old_.title)
      && (patch.description.None? ==> new_.description == old_.description)
      && (patch.status.None? ==> new_.status == old_.status)
      && (patch.dueDate.None? ==> new_.dueDate == old_.dueDate)
      && (patch.title.Some? ==> new_.title == Trim(patch.title.value))
      && (patch.description.Some? ==> new_.description == Trim(patch.description.value))
      && (patch.status.Some? ==> new_.status == patch.status.value)
      && (patch.dueDate.Some? ==> new_.dueDate == patch.dueDate.value)
      && new_.id == old_.id && new_.createdAt == old_.createdAt && new_.updatedAt == now
  {
    var k := KeyOf(id);
    var u := ApplyPatch(m[k], patch, now);
    assert UpdateTask(m, id, patch, now) == Outcome(Response(200, Record(u)), m[k := u]);
  }

  /**
   * No validator runs on update: a record can be given a status outside
   * the enum, which a create would have refused.
   */
  lemma UpdateCanLeaveTheSchema(m: Store, next: nat, k: nat, now: nat)
    requires WellKeyed(m, next) && k in m
    ensures var o := UpdateTask(m, HexId(k), EmptyPatch.(status := Some("archived")), now);
      o.response.code == 200 && !IsValidRecord(o.response.body.task)
  {
    HexIdRoundTrip(k);
  }

  /** After a delete the id is unknown, and only that record is gone. */
  lemma DeleteThenGet(m: Store, id: string)
    requires DeleteTask(m, id).response.code == 200
    ensures var o := DeleteTask(m, id);
      && GetTaskById(o.store, id) == Response(404, Message(TaskNotFound))
      && o.store.Keys == m.Keys - {KeyOf(id)}
      && forall k :: k in o.store ==> o.store[k] == m[k]
  {
  }

  /** The ids strictly increase along r. */
  predicate AscendingIds(r: seq<Task>) {
    forall i, j :: 0 <= i < j < |r| ==> r[i].id < r[j].id
  }

  /**
   * The listing is in ascending id order (creation order), so no record
   * appears twice, and every listed id was issued before n.
   */
  lemma {:induction false} ListingInCreationOrder(m: Store, n: nat)
    requires IdsMatchKeys(m)
    ensures AscendingIds(Listing(m, n))
    ensures forall i :: 0 <= i < |Listing(m, n)| ==> Listing(m, n)[i].id < n
  {
    if n > 0 {
      var prefix := Listing(m, n - 1);
      ListingInCreationOrder(m, n - 1);
      if n - 1 in m {
        var r := prefix + [m[n - 1]];
        assert Listing(m, n) == r;
        forall i, j | 0 <= i < j < |r| ensures r[i].id < r[j].id {
          assert r[i] == prefix[i];
          if j < |prefix| { assert r[j] == prefix[j]; }
        }
      }
    }
  }

  /** The persistent collection with its id counter, updated in place by the handlers. */
  class TaskStore {
    var tasks: Store
    var nextId: nat

    ghost predicate Valid()
      reads this
    {
      WellKeyed(tasks, nextId)
    }

    constructor ()
      ensures Valid() && tasks == map[] && nextId == 0
    {
      tasks := map[];
      nextId := 0;
    }

    method Create(input: TaskInput, now: nat) returns (r: Response)
      requires Valid() && nextId < IdSpace
      modifies this
      ensures Valid()
      ensures Outcome(r, tasks) == CreateTask(old(tasks), old(nextId), input, now)
      ensures nextId == if r.code == 201 then old(nextId) + 1 else old(nextId)
    {
      if LacksRequiredField(input) {
        return Response(400, Message(RequiredFields));
      }
      if HasInvalidStatus(input) {
        return Response(400, Message(InvalidStatusValue));
      }
      var draft := Normalize(input);
      var errors := ValidationErrors(draft);
      if errors != [] {
        return Response(500, ValidationFailure(errors));
      }
      var t := NewRecord(draft, nextId, now);
      Save(t);
      r := Response(201, Record(t));
    }

    /** `save()` of a new document: stores it under the next id. */
    method Save(t: Task)
      requires Valid() && nextId < IdSpace && t.id == nextId
      requires NoOuterWhitespace(t.title) && NoOuterWhitespace(t.description)
      modifies this
      ensures Valid()
      ensures tasks == old(tasks)[old(nextId) := t] && old(nextId) !in old(tasks)
      ensures nextId == old(nextId) + 1
    {
      InsertFresh(tasks, nextId, t);
      tasks := tasks[nextId := t];
      nextId := nextId + 1;
    }

    method List() returns (r: Response)
      requires Valid()
      ensures r == GetAllTasks(tasks, nextId)
    {
      r := Response(200, Records(Listing(tasks, nextId)));
    }

    method Get(id: string) returns (r: Response)
      requires Valid()
      ensures r == GetTaskById(tasks, id)
    {
      if !IsValidId(id) {
        return Response(400, Message(InvalidTaskId));
      }
      var k := HexValue(id);
      if k !in tasks {
        return Response(404, Message(TaskNotFound));
      }
      r := Response(200, Record(tasks[k]));
    }

    method Update(id: string, patch: TaskInput, now: nat) returns (r: Response)
      requires Valid()
      modifies this
      ensures Valid() && nextId == old(nextId)
      ensures r == UpdateTask(old(tasks), id, patch, now).response
      ensures tasks == UpdateTask(old(tasks), id, patch, now).store
    {
      if !IsValidId(id) {
        return Response(400, Message(InvalidTaskId));
      }
      var k := HexValue(id);
      if k !in tasks {
        return Response(404, Message(TaskNotFound));
      }
      var u := ApplyPatch(tasks[k], patch, now);
      tasks := tasks[k := u];
      r := Response(200, Record(u));
    }

    method Delete(id: string) returns (r: Response)
      requires Valid()
      modifies this
      ensures Valid() && nextId == old(nextId)
      ensures r == DeleteTask(old(tasks), id).response
      ensures tasks == DeleteTask(old(tasks), id).store
    {
      if !IsValidId(id) {
        return Response(400, Message(InvalidTaskId));
      }
      var k := HexValue(id);
      if k !in tasks {
        return Response(404, Message(TaskNotFound));
      }
      tasks := tasks - {k};
      r := Response(200, Message(TaskDeleted));
    }
  }
}
