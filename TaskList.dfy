/**
 * The list page of the frontend: the search box and status selector that
 * narrow the fetched tasks, and the removal of a deleted task from the
 * list held in the page state.
 */
module TaskList {
  import opened JsStrings
  import opened JsArrays
  import opened TaskModel

  /** The selector value that shows every status. */
  const AllStatuses: string := "all"

  /** The lower-cased term occurs in the lower-cased title or description. */
  predicate MatchesSearch(t: Task, term: string) {
    Includes(ToLower(t.title), ToLower(term)) || Includes(ToLower(t.description), ToLower(term))
  }

  /** The selector shows every status, or exactly this one. */
  predicate MatchesStatus(t: Task, filter: string) {
    filter == AllStatuses || t.status == filter
  }

  /** The callback given to `filter` for the shown list. */
  function Shown(term: string, filter: string): Task -> bool {
    (t: Task) => MatchesSearch(t, term) && MatchesStatus(t, filter)
  }

  /**
   * filteredTasks: the tasks matching both the search term and the status
   * selector, in their original order.
   */
  function FilteredTasks(tasks: seq<Task>, term: string, filter: string): (r: seq<Task>)
    ensures SubsequenceOf(r, tasks)
    ensures forall t :: t in r <==> t in tasks && MatchesSearch(t, term) && MatchesStatus(t, filter)
    ensures filter != AllStatuses ==> forall t :: t in r ==> t.status == filter
  {
    FilterIsSubsequence(tasks, Shown(term, filter));
    Filter(tasks, Shown(term, filter))
  }

  /** With an empty search and every status selected, the whole list is shown. */
  lemma UnfilteredKeepsAll(tasks: seq<Task>)
    ensures FilteredTasks(tasks, "", AllStatuses) == tasks
  {
    assert ToLower("") == "";
    forall t | t in tasks ensures Shown("", AllStatuses)(t) {
      IncludesEmpty(ToLower(t.title));
    }
    FilterKeepsAll(tasks, Shown("", AllStatuses));
  }

  /** Search terms with the same lower-case form show the same tasks. */
  lemma SearchIsCaseInsensitive(tasks: seq<Task>, a: string, b: string, filter: string)
    requires ToLower(a) == ToLower(b)
    ensures FilteredTasks(tasks, a, filter) == FilteredTasks(tasks, b, filter)
  {
    FilterCongruent(tasks, Shown(a, filter), Shown(b, filter));
  }

  /** In particular, typing the term in capitals changes nothing. */
  lemma UpperCaseSearch(tasks: seq<Task>, term: string, filter: string)
    ensures FilteredTasks(tasks, ToUpper(term), filter) == FilteredTasks(tasks, term, filter)
  {
    LowerOfUpper(term);
    SearchIsCaseInsensitive(tasks, ToUpper(term), term, filter);
  }

  /** The callback given to `filter` by handleDelete. */
  function IdIsNot(id: nat): Task -> bool {
    (t: Task) => t.id != id
  }

  /**
   * handleDelete's list update: drop the tasks whose id is the deleted one,
   * keeping the others in their order.
   */
  function RemoveById(tasks: seq<Task>, id: nat): (r: seq<Task>)
    ensures SubsequenceOf(r, tasks)
    ensures forall t :: t in r <==> t in tasks && t.id != id
  {
    FilterIsSubsequence(tasks, IdIsNot(id));
    Filter(tasks, IdIsNot(id))
  }

  /** Removing an id no task has leaves the list as it was. */
  lemma RemoveAbsentId(tasks: seq<Task>, id: nat)
    requires forall t :: t in tasks ==> t.id != id
    ensures RemoveById(tasks, id) == tasks
  {
    FilterKeepsAll(tasks, IdIsNot(id));
  }

  /** Removing an id some task has makes the list shorter. */
  lemma RemovePresentId(tasks: seq<Task>, id: nat)
    requires exists t :: t in tasks && t.id == id
    ensures |RemoveById(tasks, id)| < |tasks|
  {
    if |RemoveById(tasks, id)| == |tasks| {
      FilterFullLength(tasks, IdIsNot(id));
    }
  }

  /** Removal distributes over concatenation. */
  lemma RemoveAppend(a: seq<Task>, b: seq<Task>, id: nat)
    ensures RemoveById(a + b, id) == RemoveById(a, id) + RemoveById(b, id)
  {
    FilterAppend(a, b, IdIsNot(id));
  }
}
