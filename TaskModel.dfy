/**
 * The Task schema of models/task.js: the record shape, what Mongoose's
 * setters and defaults do to a request body, and the validators that run
 * when a new document is saved.
 */
module TaskModel {
  import opened Wrappers
  import opened JsStrings

  const Pending: string := "pending"
  const InProgress: string := "in-progress"
  const Completed: string := "completed"

  /** The status enum of the schema. */
  predicate IsStatus(s: string) {
    s == Pending || s == InProgress || s == Completed
  }

  const MinTitleLength: nat := 3

  /** A failing path of a validation, with the message the schema gives it. */
  datatype SchemaError = TitleRequired | TitleTooShort | DescriptionRequired | InvalidStatus(value: string) | DueDateRequired
  {
    function Message(): string {
      match this
      case TitleRequired => "Task title is required"
      case TitleTooShort => "Title must be at least 3 characters long"
      case DescriptionRequired => "Description is required"
      case InvalidStatus(v) => "`" + v + "` is not a valid enum value for path `status`."
      case DueDateRequired => "Due date is required"
    }
  }

  /** The fields of a request body the schema knows; each may be absent. */
  datatype TaskInput = TaskInput(
    title: Option<string>,
    description: Option<string>,
    status: Option<string>,
    dueDate: Option<string>)

  /** A new document before validation: setters applied, defaults filled in. */
  datatype Draft = Draft(
    title: Option<string>,
    description: Option<string>,
    status: string,
    dueDate: Option<string>)

  /**
   * A stored task; `id` is the value of its ObjectId (sent to clients as
   * hexadecimal text), the timestamps are clock readings.
   */
  datatype Task = Task(
    id: nat,
    title: string,
    description: string,
    status: string,
    dueDate: string,
    createdAt: nat,
    updatedAt: nat)

  /**
   * The `trim: true` setter, applied to a field when it is present: the
   * stored text is the input with its whitespace padding removed.
   */
  function TrimField(o: Option<string>): (r: Option<string>)
    ensures r.Some? <==> o.Some?
    ensures r.Some? ==> NoOuterWhitespace(r.value) && |r.value| <= |o.value|
  {
    match o
    case None => None
    case Some(s) => Some(Trim(s))
  }

  /**
   * Building a document from a body: title and description lose their
   * whitespace padding, an absent status becomes pending, and the status
   * and due date are otherwise taken as sent.
   */
  function Normalize(input: TaskInput): (d: Draft)
    ensures d.title.Some? <==> input.title.Some?
    ensures d.title.Some? ==> NoOuterWhitespace(d.title.value) && |d.title.value| <= |input.title.value|
    ensures d.description.Some? <==> input.description.Some?
    ensures d.description.Some? ==>
      NoOuterWhitespace(d.description.value) && |d.description.value| <= |input.description.value|
    ensures input.status.None? ==> d.status == Pending
    ensures input.status.Some? ==> d.status == input.status.value
    ensures d.dueDate == input.dueDate
  {
    Draft(
      TrimField(input.title),
      TrimField(input.description),
      match input.status case None => Pending case Some(s) => s,
      input.dueDate)
  }

  /**
   * The setters remove whitespace padding and nothing else: each present
   * text is its stored form with only whitespace before and after it.
   */
  lemma NormalizeRemovesOnlyPadding(input: TaskInput)
    ensures var d := Normalize(input);
      && (d.title.Some? ==> exists i: nat :: TrimmedAt(input.title.value, d.title.value, i))
      && (d.description.Some? ==> exists i: nat :: TrimmedAt(input.description.value, d.description.value, i))
  {
    if input.title.Some? {
      TrimRemovesOnlyPadding(input.title.value);
    }
    if input.description.Some? {
      TrimRemovesOnlyPadding(input.description.value);
    }
  }

  /** The `required` check on a string path: absent or empty fails it. */
  predicate Missing(o: Option<string>) {
    o.None? || o.value == ""
  }

  /** The schema's constraints, stated declaratively. */
  predicate ConformsToSchema(d: Draft) {
    && !Missing(d.title) && Utf16Length(d.title.value) >= MinTitleLength
    && !Missing(d.description)
    && IsStatus(d.status)
    && !Missing(d.dueDate)
  }

  /**
   * The validation report of a save, one error per failing path in schema
   * order; for the title, `required` is checked before `minlength`, which
   * compares the JavaScript length (UTF-16 code units) with the minimum.
   */
  function ValidationErrors(d: Draft): (errors: seq<SchemaError>)
    ensures errors == [] <==> ConformsToSchema(d)
    ensures |errors| <= 4
    ensures TitleRequired in errors <==> Missing(d.title)
    ensures TitleTooShort in errors <==> !Missing(d.title) && Utf16Length(d.title.value) < MinTitleLength
    ensures DescriptionRequired in errors <==> Missing(d.description)
    ensures InvalidStatus(d.status) in errors <==> !IsStatus(d.status)
    ensures DueDateRequired in errors <==> Missing(d.dueDate)
  {
    var title :=
      if Missing(d.title) then [TitleRequired]
      else if Utf16Length(d.title.value) < MinTitleLength then [TitleTooShort]
      else [];
    var description := if Missing(d.description) then [DescriptionRequired] else [];
    var status := if !IsStatus(d.status) then [InvalidStatus(d.status)] else [];
    var dueDate := if Missing(d.dueDate) then [DueDateRequired] else [];
    title + description + status + dueDate
  }

  /**
   * The document a successful save stores: it holds the draft's texts and
   * status unchanged, so it still meets every constraint, and the
   * `timestamps` option sets both stamps to the time of the save.
   */
  function NewRecord(d: Draft, id: nat, now: nat): (t: Task)
    requires ConformsToSchema(d)
    ensures Draft(Some(t.title), Some(t.description), t.status, Some(t.dueDate)) == d
    ensures Utf16Length(t.title) >= MinTitleLength && t.description != "" && IsStatus(t.status) && t.dueDate != ""
    ensures t.id == id && t.createdAt == now && t.updatedAt == now
  {
    Task(id, d.title.value, d.description.value, d.status, d.dueDate.value, now, now)
  }

  /** What every record created through the schema satisfies. */
  predicate IsValidRecord(t: Task) {
    && NoOuterWhitespace(t.title) && Utf16Length(t.title) >= MinTitleLength
    && NoOuterWhitespace(t.description) && t.description != ""
    && IsStatus(t.status)
    && t.dueDate != ""
  }

  /** A document that passes validation is stored in the schema's shape. */
  lemma CreatedRecordIsValid(input: TaskInput, id: nat, now: nat)
    requires ConformsToSchema(Normalize(input))
    ensures IsValidRecord(NewRecord(Normalize(input), id, now))
    ensures NewRecord(Normalize(input), id, now).title == Trim(input.title.value)
    ensures NewRecord(Normalize(input), id, now).description == Trim(input.description.value)
  {
  }

  /** The full record as a request body, as the frontend sends it back: every schema field is present. */
  function FieldsOf(t: Task): (p: TaskInput)
    ensures p.title.Some? && p.description.Some? && p.status.Some? && p.dueDate.Some?
  {
    TaskInput(Some(t.title), Some(t.description), Some(t.status), Some(t.dueDate))
  }

  /**
   * A valid record sent back as a body passes validation, and a save of it
   * would store the same contents again.
   */
  lemma ResentRecordRecreatesIt(t: Task)
    requires IsValidRecord(t)
    ensures ConformsToSchema(Normalize(FieldsOf(t)))
    ensures NewRecord(Normalize(FieldsOf(t)), t.id, t.createdAt) == t.(updatedAt := t.createdAt)
  {
    TrimOfTrimmed(t.title);
    TrimOfTrimmed(t.description);
  }

  /**
   * minlength applies to the trimmed title: whatever whitespace surrounds
   * it, in a body that is otherwise acceptable the title is accepted exactly
   * when its text proper is at least three UTF-16 code units long; otherwise
   * the required error is reported when nothing is left, the minlength one
   * when something is.
   */
  lemma TitleLengthCountsAfterTrim(pre: string, text: string, post: string, rest: TaskInput)
    requires AllWhitespace(pre) && AllWhitespace(post) && NoOuterWhitespace(text)
    requires ConformsToSchema(Normalize(rest))
    ensures var errors := ValidationErrors(Normalize(rest.(title := Some(pre + text + post))));
      && (errors == [] <==> Utf16Length(text) >= MinTitleLength)
      && (text == [] ==> errors == [TitleRequired])
      && (text != [] && Utf16Length(text) < MinTitleLength ==> errors == [TitleTooShort])
  {
    TrimOfPadded(pre, text, post);
    var d := Normalize(rest);
    assert Normalize(rest.(title := Some(pre + text + post))) == d.(title := Some(text));
    OnlyTitleChecked(d, text);
  }

  /** In a draft whose other paths conform, the title's checks alone decide. */
  lemma OnlyTitleChecked(d: Draft, title: string)
    requires ConformsToSchema(d)
    ensures ValidationErrors(d.(title := Some(title))) ==
      if title == [] then [TitleRequired]
      else if Utf16Length(title) < MinTitleLength then [TitleTooShort]
      else []
  {
  }

  /** "  ab " is "ab" with whitespace around it, two characters: only the title fails. */
  lemma ShortTitleRejected(rest: TaskInput)
    requires ConformsToSchema(Normalize(rest))
    ensures ValidationErrors(Normalize(rest.(title := Some("  ab ")))) == [TitleTooShort]
  {
    PaddedAb();
    var d := Normalize(rest);
    assert Normalize(rest.(title := Some("  ab "))) == d.(title := Some("ab"));
    OnlyTitleChecked(d, "ab");
  }

  /** The padded short title trims to its two letters. */
  lemma PaddedAb()
    ensures Trim("  ab ") == "ab" && Utf16Length("ab") == 2
  {
    assert "  ab " == "  " + "ab" + " ";
    TrimOfPadded("  ", "ab", " ");
  }

  /** "abc" has no whitespace around it and three characters: accepted. */
  lemma ThreeCharacterTitleAccepted(rest: TaskInput)
    requires ConformsToSchema(Normalize(rest))
    ensures ValidationErrors(Normalize(rest.(title := Some("abc")))) == []
  {
    PlainAbc();
    var d := Normalize(rest);
    assert Normalize(rest.(title := Some("abc"))) == d.(title := Some("abc"));
    OnlyTitleChecked(d, "abc");
  }

  /** "abc" is left as it is by trim and is three code units long. */
  lemma PlainAbc()
    ensures Trim("abc") == "abc" && Utf16Length("abc") == 3
  {
    TrimOfTrimmed("abc");
  }

  /**
   * Two emoji are two characters but four UTF-16 code units, so they meet
   * the three-character minimum.
   */
  lemma EmojiTitleAccepted(rest: TaskInput)
    requires ConformsToSchema(Normalize(rest))
    ensures |"\U{1F44D}\U{1F44D}"| == 2
    ensures ValidationErrors(Normalize(rest.(title := Some("\U{1F44D}\U{1F44D}")))) == []
  {
    var s := "\U{1F44D}\U{1F44D}";
    TwoEmoji();
    var d := Normalize(rest);
    assert Normalize(rest.(title := Some(s))) == d.(title := Some(s));
    OnlyTitleChecked(d, s);
  }

  /** Two emoji are left as they are by trim and are four code units long. */
  lemma TwoEmoji()
    ensures Trim("\U{1F44D}\U{1F44D}") == "\U{1F44D}\U{1F44D}"
    ensures Utf16Length("\U{1F44D}\U{1F44D}") == 4
  {
    TrimOfTrimmed("\U{1F44D}\U{1F44D}");
  }
}
