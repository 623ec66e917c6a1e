/**
 * The card that shows one task: the colour scheme of its status badge, the
 * badge text, the buttons it offers and the body it sends to change the
 * status.
 */
module TaskCard {
  import opened JsStrings
  import opened TaskModel

  /** The colour schemes the card uses. */
  datatype Color = Yellow | Blue | Green | Gray

  /** getStatusColor. */
  function StatusColor(status: string): (c: Color)
    ensures c == Yellow <==> status == Pending
    ensures c == Blue <==> status == InProgress
    ensures c == Green <==> status == Completed
    ensures c == Gray <==> !IsStatus(status)
  {
    if status == Pending then Yellow
    else if status == InProgress then Blue
    else if status == Completed then Green
    else Gray
  }

  /** The card's buttons, in the order they are laid out. */
  datatype Action = Start | Complete | Delete

  /**
   * The buttons a card shows: Start unless the task is in progress or
   * completed, Complete unless it is completed, and always Delete, last.
   */
  function Actions(status: string): (r: seq<Action>)
    ensures Start in r <==> status != InProgress && status != Completed
    ensures Complete in r <==> status != Completed
    ensures Delete in r && r[|r| - 1] == Delete
    ensures forall i, j :: 0 <= i < j < |r| ==> r[i] != r[j]
  {
    (if status != InProgress && status != Completed then [Start] else [])
    + (if status != Completed then [Complete] else [])
    + [Delete]
  }

  /** The status a status-changing button sends. */
  function Target(a: Action): (s: string)
    requires a != Delete
    ensures IsStatus(s) && s != Pending
  {
    match a
    case Start => InProgress
    case Complete => Completed
  }

  /** The position of a status in the workflow pending, in-progress, completed. */
  function Rank(status: string): (n: nat)
    requires IsStatus(status)
    ensures n <= 2
    ensures n == 0 <==> status == Pending
    ensures n == 2 <==> status == Completed
  {
    if status == Pending then 0 else if status == InProgress then 1 else 2
  }

  /** From an enum status, every button the card offers moves the task forward. */
  lemma ActionsMoveForward(status: string, a: Action)
    requires IsStatus(status) && a in Actions(status) && a != Delete
    ensures Rank(status) < Rank(Target(a))
  {
  }

  /** A completed task offers only Delete. */
  lemma CompletedIsFinal()
    ensures Actions(Completed) == [Delete]
  {
  }

  /**
   * handleStatusChange's body `{...task, status: newStatus}`: the task with
   * the status replaced and every other field kept.
   */
  function StatusChangePayload(t: Task, newStatus: string): (p: Task)
    ensures p.status == newStatus
    ensures p.(status := t.status) == t
  {
    t.(status := newStatus)
  }

  /** `status.charAt(0).toUpperCase() + status.slice(1)`. */
  function BadgeLabel(status: string): (r: string)
    ensures |r| == |status|
    ensures status != [] ==> r[0] == UpperChar(status[0]) && r[1..] == status[1..]
  {
    if status == [] then [] else [UpperChar(status[0])] + status[1..]
  }

  /** The badge spells the status, only its first letter capitalised. */
  lemma BadgeMatchesStatus(status: string)
    ensures ToLower(BadgeLabel(status)) == ToLower(status)
  {
    if status != [] {
      LowerOfUpperChar(status[0]);
      assert ToLower(BadgeLabel(status))[0] == ToLower(status)[0];
      assert forall i :: 1 <= i < |status| ==> BadgeLabel(status)[i] == status[i];
    }
  }

  /** The labels of the three enum statuses. */
  lemma BadgeLabels()
    ensures BadgeLabel(Pending) == "Pending"
    ensures BadgeLabel(InProgress) == "In-progress"
    ensures BadgeLabel(Completed) == "Completed"
  {
  }
}
