# Task management system — a verified model of its core

The system is a small task manager. An Express/Mongoose backend keeps a
collection of tasks and answers five REST handlers: create, list, get by
id, update and delete. A React frontend lists the tasks, filters them by a
search term and a status, shows per-status progress, and offers buttons that
move a task through the workflow pending → in-progress → completed.

This project models that core in Dafny and proves what the code promises.

- `JsStrings`: the JavaScript string built-ins the core uses.
  - `String.prototype.trim`, with the full ECMAScript whitespace set.
  - ASCII `toLowerCase` and `toUpperCase`.
  - `includes`.
- `JsArrays`: `Array.prototype.filter`, and the notion of an
  order-preserving subsequence.
- `ObjectIds`: the id check `mongoose.Types.ObjectId.isValid`, which here
  means 24 hexadecimal digits. Generated ids are the hexadecimal text of a
  counter, and decoding that text gives the counter value back.
- `TaskModel`: the Task schema of `models/task.js`.
  - The request body is a `TaskInput`.
  - The `trim` setters and the `pending` default give a `Draft`.
  - The validators of `save()` give a list of `SchemaError`s, in schema
    order.
  - The stored record is a `Task`; the `timestamps` option sets both stamps.
- `TaskController`: the five handlers, written as functions from the
  collection (a `map` from ObjectId value to `Task`) to a response and the
  new collection. The class `TaskStore` holds the collection and the id
  counter as fields, and performs the same handlers in place. Each of its
  methods is proved equal to the matching function.
- `TaskList`, `TaskProgress` and `TaskCard`: the frontend logic of the
  three components with those names.
- `ClientServer`: two facts about the frontend and the backend together.
  - Removing a deleted task from the page's list gives exactly the list the
    server now returns.
  - A card's status button changes only the status (and `updatedAt`) of the
    stored record.

A task's `id` is the value of its ObjectId. Clients receive it as
hexadecimal text (`HexId`), and a request's id text is decoded with
`HexValue`, so upper- and lower-case digits denote the same record: the
id text of the record found is the request's text in lower case
(`KeyOf`). Because `HexId` is injective (`HexIdInjective`), comparing ids
as text, as the frontend does, is the same as comparing their values.

Strings are sequences of Unicode code points. JavaScript's `length`, which
the `minlength` validator compares, counts UTF-16 code units instead, so
the model measures titles with `Utf16Length`: a character outside the
Basic Multilingual Plane, such as an emoji, counts twice
(`EmojiTitleAccepted`). Trimming and case mapping give the same result on
code points as on code units, because no whitespace character or ASCII
letter is a surrogate, and so does `includes` on well-formed texts.

Behaviour of the handlers worth stating directly:

- A body that passes the controller's two guards but fails schema
  validation gets 500, not 400. Examples are a title that is under three
  characters once trimmed, a title made only of spaces, and an empty
  status. `save()` rejects such a body, `next(error)` passes the error on,
  and the error middleware at `server.js:31-37` answers with 500. The model
  returns 500 with the list of failing paths.
- An empty status `""` is falsy, so it passes the controller's status check
  (`controllers/taskController.js:15`). The enum validator then rejects it.
- The update handler runs no validators, because `findByIdAndUpdate` is
  called without `runValidators`. Mongoose still applies the `trim`
  setters, so an update stores trimmed title and description. It also sets
  `updatedAt` and keeps `createdAt`. Every stored title and description
  therefore has no whitespace at either end; this is part of the
  collection invariant `WellKeyed` that `TaskStore` keeps.

## Model

| member | source | states |
|---|---|---|
| JsStrings.Trim | models/task.js:8 | the trimmed text is no longer than the input and has no whitespace at either end |
| JsStrings.TrimRemovesOnlyPadding | models/task.js:8 | the input is whitespace + the trimmed text + whitespace, so trim only removes padding |
| JsStrings.TrimOfPadded | models/task.js:8 | for any whitespace padding around a text with no outer whitespace, trim gives back exactly that text |
| JsStrings.TrimOfTrimmed | models/task.js:14 | a text with no outer whitespace is left unchanged by trim |
| JsStrings.TrimIdempotent | models/task.js:8 | trimming twice gives the same as trimming once |
| JsStrings.Utf16Length | models/task.js:9 | JavaScript's length of a text lies between its number of code points and twice that |
| JsStrings.Utf16LengthOfBmp | models/task.js:9 | on text within the Basic Multilingual Plane, the JavaScript length is the number of characters |
| JsStrings.ToLower | frontend/src/components/TaskList.jsx:68 | same length; each character is mapped to its ASCII lower-case form |
| JsStrings.ToLowerIdempotent | frontend/src/components/TaskList.jsx:68-69 | lower-casing twice gives the same as lower-casing once |
| JsStrings.ToUpper | frontend/src/components/TaskCard.jsx:76 | same length; each character is mapped to its ASCII upper-case form |
| JsStrings.LowerOfUpper | frontend/src/components/TaskList.jsx:68-69 | lower-casing an upper-cased text gives the lower-cased original |
| JsStrings.Includes | frontend/src/components/TaskList.jsx:68-69 | true exactly when the needle occurs at some position of the haystack |
| JsStrings.IncludesEmpty | frontend/src/components/TaskList.jsx:68-70 | the empty string is included in every string |
| JsArrays.Filter | frontend/src/components/TaskList.jsx:67-72 | the result is no longer than the input and holds exactly the input elements that the callback accepts |
| JsArrays.FilterIsSubsequence | frontend/src/components/TaskList.jsx:67-72 | filter keeps the relative order of what it keeps (an order-preserving subsequence) |
| JsArrays.FilterAppend | frontend/src/components/TaskList.jsx:48 | filtering a concatenation is concatenating the filtered parts |
| JsArrays.FilterKeepsAll | frontend/src/components/TaskList.jsx:68-70 | a callback true on every element returns the input unchanged |
| JsArrays.FilterFullLength | frontend/src/components/TaskList.jsx:48 | a filter that keeps as many elements as it was given accepted every element |
| JsArrays.FilterCongruent | frontend/src/components/TaskList.jsx:68-69 | callbacks that agree on the elements give the same result |
| ObjectIds.IsValidId | controllers/taskController.js:40 | the definition: 24 hexadecimal digits of either case; characterised by ValidIdsAreIdTexts |
| ObjectIds.ValidIdsAreIdTexts | controllers/taskController.js:40 | a text passes isValid exactly when, lower-cased, it is the id text of some ObjectId value |
| ObjectIds.HexValue | controllers/taskController.js:44 | the value of a hexadecimal text of n digits is below 16^n |
| ObjectIds.HexDigitsOfValue | controllers/taskController.js:44 | writing back the value of a hexadecimal text gives the text in lower case |
| ObjectIds.HexIdOfValidId | controllers/taskController.js:44 | a valid id text denotes an ObjectId value whose id text is the given text lower-cased |
| ObjectIds.HexDigitsRoundTrip | controllers/taskController.js:40 | decoding the n-digit hexadecimal text of a value below 16^n gives the value back |
| ObjectIds.HexIdRoundTrip | controllers/taskController.js:40 | a generated id passes isValid and decodes to the value it was generated from |
| ObjectIds.HexIdInjective | frontend/src/components/TaskList.jsx:48 | distinct ids have distinct texts |
| TaskModel.TrimField | models/task.js:8 | a field is present after the setter exactly when it was before, and its text then has no whitespace at either end and is no longer than the input |
| TaskModel.Normalize | models/task.js:5-20 | title and description are present exactly when sent, and then free of outer whitespace and no longer than sent; an absent status becomes pending, a sent one is kept; the due date is kept |
| TaskModel.NormalizeRemovesOnlyPadding | models/task.js:8-14 | each sent title or description is its stored text with only whitespace before and after it |
| TaskModel.ValidationErrors | models/task.js:5-24 | no errors exactly when the draft conforms to the schema; at most four errors; for each path, its error is reported exactly when that path's constraint fails; minlength compares the JavaScript (UTF-16) length; for the title, required is checked before minlength |
| TaskModel.NewRecord | models/task.js:26 | the record holds exactly the draft's texts and status, so it meets every constraint, carries the given id, and has both timestamps set to the time of the save |
| TaskModel.CreatedRecordIsValid | models/task.js:5-26 | a record saved from a conforming draft is valid: trimmed title at least 3 UTF-16 units long, trimmed non-empty description, status in the enum, due date present; its title and description are the trimmed inputs |
| TaskModel.FieldsOf | frontend/src/components/TaskCard.jsx:34-37 | a whole record sent back as a body supplies all four schema fields |
| TaskModel.ResentRecordRecreatesIt | frontend/src/components/TaskCard.jsx:34-37 | a valid record sent back as a body passes validation, and saving it would store the same contents |
| TaskModel.OnlyTitleChecked | models/task.js:5-24 | in a draft whose other paths conform, the title alone decides: the required error for an empty title, the minlength error for one under 3 UTF-16 units, none otherwise |
| TaskModel.TitleLengthCountsAfterTrim | models/task.js:5-10 | with any whitespace padding and an otherwise acceptable body, the title is accepted exactly when its trimmed text is at least 3 UTF-16 units long; an empty trimmed title gives only the required error, a shorter one only the minlength error |
| TaskModel.ShortTitleRejected | models/task.js:8-9 | in an otherwise acceptable body, the title "  ab " fails with the minlength error alone |
| TaskModel.ThreeCharacterTitleAccepted | models/task.js:8-9 | in an otherwise acceptable body, the title "abc" passes validation |
| TaskModel.EmojiTitleAccepted | models/task.js:9 | a title of two emoji, two code points but four UTF-16 units, passes validation |
| TaskController.InsertFresh | controllers/taskController.js:19-20 | storing a record under the counter value uses a fresh key and keeps the collection invariant for the next counter value |
| TaskController.LacksRequiredField | controllers/taskController.js:10 | the first guard refuses only bodies the schema would refuse; a body it lets through has title, description and due date |
| TaskController.HasInvalidStatus | controllers/taskController.js:15 | the second guard refuses only bodies the schema would refuse, and never an absent status |
| TaskController.CreateTask | controllers/taskController.js:5-25 | the response code is 201, 400 or 500; the collection changes only on 201; on 201 the record sits under a fresh key, its id is that key, and the invariant holds for the next counter value |
| TaskController.RequiredFieldsCheckedFirst | controllers/taskController.js:10-17 | a missing or empty title, description or due date gives the 400 "required" response whatever the status, and the collection is unchanged |
| TaskController.InvalidStatusRejected | controllers/taskController.js:15-17 | with the required fields present, the 400 status response comes exactly for a non-empty status outside the enum, and the collection is unchanged |
| TaskController.EmptyStatusFailsOnSave | controllers/taskController.js:15-23 | an empty status passes the controller's check but fails the enum validator: 500, the collection unchanged |
| TaskController.CreateSucceedsExactly | controllers/taskController.js:10-21 | create answers 201 exactly for acceptable bodies; the record has the trimmed title and description, the status or pending, the due date, both stamps set to now, an id no stored record has, and it is a valid record |
| TaskController.CreateThenGet | controllers/taskController.js:19-48 | fetching the id text of a created record returns 200 with that record |
| TaskController.Listing | controllers/taskController.js:30 | at most one record per issued key; its contents and order are given by ListingContents and ListingInCreationOrder |
| TaskController.ListingContents | controllers/taskController.js:30 | the listing holds exactly the records stored under keys below the bound |
| TaskController.GetAllTasks | controllers/taskController.js:28-31 | 200, and a record is listed exactly when it is stored under an issued key |
| TaskController.ListsEveryRecord | controllers/taskController.js:30-31 | under the collection invariant the listing is unfiltered: a record is listed exactly when it is stored |
| TaskController.ListingInCreationOrder | controllers/taskController.js:30 | listed ids strictly increase (creation order, no duplicates), and each is below the counter |
| TaskController.KeyOf | controllers/taskController.js:44 | the key of a valid id text is an ObjectId value whose id text is the request's text lower-cased |
| TaskController.GetTaskById | controllers/taskController.js:38-52 | 200, 400 or 404; 200 exactly when the id is valid and denotes a stored record, and then the body is that record |
| TaskController.InvalidIdRejectedBeforeLookup | controllers/taskController.js:38-76 | an invalid id gives 400 "Invalid Task ID" from get, update and delete, whatever the collection holds, and nothing changes |
| TaskController.UnknownIdNotFound | controllers/taskController.js:44-81 | a valid id of no stored record gives 404 "Task not found" from get, update and delete, and nothing changes |
| TaskController.ApplyPatch | controllers/taskController.js:61 | id and createdAt are kept and updatedAt is the current time; a field absent from the body is kept; a sent title or description is stored free of outer whitespace; a sent status or due date is stored as sent |
| TaskController.UpdateTask | controllers/taskController.js:55-69 | 200, 400 or 404; 200 exactly when the id denotes a stored record, and then the body and the stored record are the patched record; otherwise nothing changes |
| TaskController.StatusOnlyPatch | controllers/taskController.js:61 | a body with only a status changes only the status (and updatedAt); an empty body changes only updatedAt |
| TaskController.PatchIdempotent | controllers/taskController.js:61 | sending the same body twice leaves the record as sending it once |
| TaskController.UpdateChangesOnlyItsRecord | controllers/taskController.js:61-65 | a successful update keeps the set of keys and every other record; fields absent from the body keep their values; a sent title or description becomes its trimmed text, a sent status or due date the sent value; id and createdAt are kept |
| TaskController.UpdateCanLeaveTheSchema | controllers/taskController.js:61 | update does no validation: a status outside the enum is stored, giving a record that is not valid |
| TaskController.DeleteTask | controllers/taskController.js:72-86 | 200, 400 or 404; 200 exactly when the id denotes a stored record, and then that key is removed; otherwise nothing changes |
| TaskController.DeleteThenGet | controllers/taskController.js:78-82 | after a delete the same id gives 404; only that key is gone and every other record is unchanged |
| TaskController.TaskStore.Create | controllers/taskController.js:5-25 | the response and the new collection are those of CreateTask; the counter advances exactly on 201; the invariant is kept |
| TaskController.TaskStore.Save | controllers/taskController.js:19-20 | the record goes under the previous counter value, which was unused; the counter advances by one; the invariant is kept |
| TaskController.TaskStore.List | controllers/taskController.js:28-31 | the response is that of GetAllTasks |
| TaskController.TaskStore.Get | controllers/taskController.js:38-52 | the response is that of GetTaskById |
| TaskController.TaskStore.Update | controllers/taskController.js:55-69 | the response and the new collection are those of UpdateTask; the counter and the invariant are kept |
| TaskController.TaskStore.Delete | controllers/taskController.js:72-86 | the response and the new collection are those of DeleteTask; the counter and the invariant are kept |
| TaskList.FilteredTasks | frontend/src/components/TaskList.jsx:67-72 | an order-preserving subsequence of the tasks; a task is shown exactly when the lower-cased term occurs in its lower-cased title or description and the status selector matches; with a specific status, every shown task has it |
| TaskList.UnfilteredKeepsAll | frontend/src/components/TaskList.jsx:68-70 | an empty search with "all" statuses shows every task, in order |
| TaskList.SearchIsCaseInsensitive | frontend/src/components/TaskList.jsx:68-69 | terms with the same lower-case form show the same tasks |
| TaskList.UpperCaseSearch | frontend/src/components/TaskList.jsx:68-69 | typing the term in capitals shows the same tasks |
| TaskList.RemoveById | frontend/src/components/TaskList.jsx:48 | an order-preserving subsequence holding exactly the tasks whose id differs from the deleted one |
| TaskList.RemoveAbsentId | frontend/src/components/TaskList.jsx:48 | removing an id no task has leaves the list unchanged |
| TaskList.RemovePresentId | frontend/src/components/TaskList.jsx:48 | removing an id some task has makes the list shorter |
| TaskList.RemoveAppend | frontend/src/components/TaskList.jsx:48 | removal from a concatenation is the concatenation of the removals |
| TaskProgress.CountStatus | frontend/src/components/TaskProgress.jsx:21-23 | a status count is at most the total, and is 0 exactly when no task has that status |
| TaskProgress.CountOther | frontend/src/components/TaskProgress.jsx:20-23 | the count of statuses outside the enum is at most the total, and is 0 exactly when every status is in the enum |
| TaskProgress.RoundedPercent | frontend/src/components/TaskProgress.jsx:26-28 | 0 for no tasks; otherwise round-half-up of 100·count/total: r − ½ ≤ 100·count/total < r + ½ |
| TaskProgress.Stats | frontend/src/components/TaskProgress.jsx:20-28 | the total is the number of tasks and each count is at most the total |
| TaskProgress.PercentBounds | frontend/src/components/TaskProgress.jsx:26-28 | a share of at most the total is at most 100 percent, none is 0 percent, all is 100 percent |
| TaskProgress.CountsPartition | frontend/src/components/TaskProgress.jsx:20-23 | every task is counted exactly once: under its status, or among the statuses outside the enum |
| TaskProgress.CountsSumToTotal | frontend/src/components/TaskProgress.jsx:20-23 | when every status is in the enum, the three counts add up to the total |
| TaskProgress.PercentagesInRange | frontend/src/components/TaskProgress.jsx:26-28 | each of the three percentages lies in 0..100, and all are 0 for an empty list |
| TaskProgress.CompletionExtremes | frontend/src/components/TaskProgress.jsx:26 | completion is 100 percent when every task is completed and 0 percent when none is |
| TaskProgress.RoundingsNearlySum | frontend/src/components/TaskProgress.jsx:26-28 | three round-half-up shares of one whole add up to 99, 100 or 101 |
| TaskProgress.PercentagesNearlySum | frontend/src/components/TaskProgress.jsx:26-28 | with every status in the enum, the three percentages add up to 99, 100 or 101 |
| TaskCard.StatusColor | frontend/src/components/TaskCard.jsx:19-30 | yellow exactly for pending, blue exactly for in-progress, green exactly for completed, gray exactly for anything else |
| TaskCard.Actions | frontend/src/components/TaskCard.jsx:89-119 | Start is offered exactly when the status is neither in-progress nor completed; Complete exactly when not completed; Delete always, last; no button twice |
| TaskCard.Target | frontend/src/components/TaskCard.jsx:94-105 | a status button sends an enum status other than pending |
| TaskCard.Rank | frontend/src/components/TaskCard.jsx:89-105 | the workflow position: 0 exactly for pending, 2 exactly for completed |
| TaskCard.ActionsMoveForward | frontend/src/components/TaskCard.jsx:89-105 | from an enum status, every offered status button moves the task strictly forward in the workflow |
| TaskCard.CompletedIsFinal | frontend/src/components/TaskCard.jsx:89-119 | a completed task offers only Delete |
| TaskCard.StatusChangePayload | frontend/src/components/TaskCard.jsx:34-37 | the payload has the new status, and putting the old status back gives the original task (no other field differs) |
| TaskCard.BadgeLabel | frontend/src/components/TaskCard.jsx:76 | same length as the status; the first character upper-cased, the rest unchanged |
| TaskCard.BadgeMatchesStatus | frontend/src/components/TaskCard.jsx:76 | the label and the status are equal once lower-cased |
| TaskCard.BadgeLabels | frontend/src/components/TaskCard.jsx:76 | the labels of the enum statuses are "Pending", "In-progress" and "Completed" |
| ClientServer.ListingWithout | frontend/src/components/TaskList.jsx:48 | listing the collection without a key gives the listing with that record filtered out |
| ClientServer.DeleteAgreesWithListing | frontend/src/components/TaskList.jsx:45-48 | after deleting a stored task by its id text (200), the page's list without that task equals the server's new listing |
| ClientServer.StatusChangeThroughUpdate | frontend/src/components/TaskCard.jsx:32-37 | on any stored record, a card's status change updates the status and updatedAt and nothing else |

## Left out

- I/O and the framework are not modelled: HTTP, Express routing, CORS, JSON parsing, the database connection, `fetch`, React state and rendering, toasts, `window.location.reload()`, and `localStorage`.
- Authentication is left out. The auth routes and the middleware are not part of this model.
- Exceptions from the database are left out (a lost connection, a failed query). So are Mongoose cast errors, such as an unparsable `dueDate`, which reach the 500 handler.
- The due date is kept as an opaque text. Mongoose's `Date` casting and the frontend's date formatting are left out.
- Texts holding a lone UTF-16 surrogate cannot be written as Dafny strings and are left out.
- Every body field is either absent or a string. JSON `null`, numbers, arrays and objects in a body are left out.
- The text of a validation error is left out. The model keeps the list of failing paths, and `SchemaError.Message` gives each path's message. It does not build Mongoose's combined `err.message`.
- ObjectIds are made from a counter; real ObjectIds contain a time, a random part and a counter. Only freshness and validity are modelled. The counter stops at 16^24 (`TaskStore.Create` requires `nextId < IdSpace`).
- `IsValidId` accepts only 24 hexadecimal digits. Depending on its version, Mongoose's `isValid` also accepts other forms, such as any 12-character string; those forms are left out.
- `Task.find()` is modelled as listing in ascending key order, which is creation order. MongoDB's natural order is not otherwise specified.
- TaskController.ApplyPatch: the update body is modelled by its four schema fields. Other keys are left out: the `_id`, `createdAt`, `updatedAt` and `__v` that the frontend sends back with a whole task, and keys outside the schema.
- TaskProgress.RoundedPercent: uses exact rational round-half-up. `Math.round((c / t) * 100)` in floating point could differ where the quotient is not exact and lies next to a .5 boundary.
- JsStrings.ToLower: maps ASCII letters only. Unicode case mapping in `toLowerCase`/`toUpperCase` is left out.
- `frontend/src/components/TaskDetails.jsx` is not part of this model. Its status-colour switch at line 24 tests `'in progress'` with a space, which never matches the enum's `'in-progress'`, so that page shows an in-progress task in the default colour.
- Login, Header, Layout, App, TaskForm, EditTaskModal and the task service are not modelled. They hold only UI and network code.
