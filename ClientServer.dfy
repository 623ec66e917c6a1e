/**
 * How the frontend's local list updates agree with the collection behind
 * the handlers: removing a deleted task from the shown list gives the list
 * the server would now send, and a card's status change reaches the stored
 * record as a change of status alone.
 */
module ClientServer {
  import opened JsStrings
  import opened ObjectIds
  import opened TaskModel
  import opened TaskController
  import opened TaskList
  import opened TaskCard

  /** Listing a collection without key k is the listing with k's record filtered out. */
  lemma {:induction false} ListingWithout(m: Store, n: nat, k: nat)
    requires IdsMatchKeys(m) && k in m
    ensures Listing(m - {k}, n) == RemoveById(Listing(m, n), k)
  {
    if n > 0 {
      ListingWithout(m, n - 1, k);
      ListingWithoutStep(m, n - 1, k);
    }
  }

  /** One more key: its record is appended on both sides, or on neither. */
  lemma ListingWithoutStep(m: Store, n: nat, k: nat)
    requires IdsMatchKeys(m) && k in m
    requires Listing(m - {k}, n) == RemoveById(Listing(m, n), k)
    ensures Listing(m - {k}, n + 1) == RemoveById(Listing(m, n + 1), k)
  {
    var prefix := Listing(m, n);
    if n in m {
      var t := m[n];
      assert Listing(m, n + 1) == prefix + [t];
      RemoveAppend(prefix, [t], k);
      RemoveOne(t, k);
    }
  }

  lemma RemoveOne(t: Task, id: nat)
    ensures RemoveById([t], id) == if t.id == id then [] else [t]
  {
    assert [t][1..] == [];
  }

  /**
   * After deleting the task with key k through its id text, the list the
   * page keeps (the old listing without the task) is the listing the
   * server now returns.
   */
  lemma DeleteAgreesWithListing(m: Store, next: nat, k: nat)
    requires WellKeyed(m, next) && k in m
    ensures var o := DeleteTask(m, HexId(k));
      && o.response.code == 200
      && Listing(o.store, next) == RemoveById(Listing(m, next), k)
  {
    HexIdRoundTrip(k);
    ListingWithout(m, next, k);
  }

  /**
   * A card's status button sends the whole task with a new status; on a
   * stored record (whose title and description have already been trimmed)
   * the update changes the status and the update time and nothing else.
   */
  lemma StatusChangeThroughUpdate(m: Store, next: nat, k: nat, newStatus: string, now: nat)
    requires WellKeyed(m, next) && k in m
    ensures var o := UpdateTask(m, HexId(k), FieldsOf(StatusChangePayload(m[k], newStatus)), now);
      var u := m[k].(status := newStatus, updatedAt := now);
      o == Outcome(Response(200, Record(u)), m[k := u])
  {
    var t := m[k];
    assert NoOuterWhitespace(t.title) && NoOuterWhitespace(t.description);
    TrimOfTrimmed(t.title);
    TrimOfTrimmed(t.description);
    var u := ApplyPatch(t, FieldsOf(StatusChangePayload(t, newStatus)), now);
    assert u == t.(status := newStatus, updatedAt := now);
    HexIdRoundTrip(k);
    assert KeyOf(HexId(k)) == k;
  }
}
