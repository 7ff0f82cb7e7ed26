/**
 `DELETE /journal/{entry_id}`: remove the row with that id, or answer 404
 when there is none.
 */
module Deletion {
  import opened Wrappers
  import opened Models

  const NotFoundDetail := "Journal entry not found"

  /** The position of the first row with the id, if any. */
  function FindId(store: Store, id: int): (r: Option<nat>)
    ensures r.None? <==> !HasId(store, id)
    ensures r.Some? ==> r.value < |store| && store[r.value].id == id
    ensures r.Some? ==> forall k :: 0 <= k < r.value ==> store[k].id != id
  {
    if |store| == 0 then None
    else if store[0].id == id then Some(0)
    else
      match FindId(store[1..], id)
      case None =>
        assert forall k :: 1 <= k < |store| ==> store[k] == store[1..][k - 1];
        None
      case Some(k) => Some(k + 1)
  }

  /** The endpoint: 204 with the row removed, or 404 with the table
      unchanged. An id that does not fit SQLite's 64-bit INTEGER cannot be
      bound into the lookup; the driver's `OverflowError` is not caught, so
      the answer is 500 and the table is unchanged. */
  function Delete(store: Store, id: int): (r: Effect<()>)
    ensures !IsRowId(id) ==> r == Effect(Err(ServerError(InternalErrorDetail)), store)
    ensures IsRowId(id) ==> (r.response.Err? <==> !HasId(store, id))
    ensures IsRowId(id) && r.response.Err? ==> r.response.error == NotFound(NotFoundDetail)
    ensures r.response.Err? ==> r.store == store
    ensures r.response.Ok? ==>
      exists i :: 0 <= i < |store| && store[i].id == id && r.store == store[..i] + store[i + 1..]
  {
    if !IsRowId(id) then Effect(Err(ServerError(InternalErrorDetail)), store)
    else
      match FindId(store, id)
      case None => Effect(Err(NotFound(NotFoundDetail)), store)
      case Some(i) => Effect(Ok(()), store[..i] + store[i + 1..])
  }

  /** Removing position `i` shifts every later row down by one. */
  lemma RemoveAtIndex(store: Store, i: int)
    requires 0 <= i < |store|
    ensures var s := store[..i] + store[i + 1..];
      && |s| == |store| - 1
      && (forall k :: 0 <= k < i ==> s[k] == store[k])
      && (forall k :: i <= k < |s| ==> s[k] == store[k + 1])
  {
  }

  /** Removing the row at `i` keeps exactly the rows with other ids. */
  lemma RemoveAtMembers(store: Store, i: int)
    requires UniqueIds(store)
    requires 0 <= i < |store|
    ensures forall e :: e in store[..i] + store[i + 1..] <==> e in store && e.id != store[i].id
  {
    forall e | e in store[..i] + store[i + 1..] ensures e in store && e.id != store[i].id {
      RemainingRow(store, i, e);
    }
    forall e | e in store && e.id != store[i].id ensures e in store[..i] + store[i + 1..] {
      OtherRowRemains(store, i, e);
    }
  }

  lemma RemainingRow(store: Store, i: int, e: Entry)
    requires UniqueIds(store)
    requires 0 <= i < |store|
    requires e in store[..i] + store[i + 1..]
    ensures e in store && e.id != store[i].id
  {
    var s := store[..i] + store[i + 1..];
    RemoveAtIndex(store, i);
    var k :| 0 <= k < |s| && s[k] == e;
    var k' := if k < i then k else k + 1;
    assert store[k'] == e && k' != i;
  }

  lemma OtherRowRemains(store: Store, i: int, e: Entry)
    requires 0 <= i < |store|
    requires e in store && e.id != store[i].id
    ensures e in store[..i] + store[i + 1..]
  {
    var s := store[..i] + store[i + 1..];
    RemoveAtIndex(store, i);
    var k :| 0 <= k < |store| && store[k] == e;
    var k' := if k < i then k else k - 1;
    assert s[k'] == e;
  }

  /** Removing a row keeps the remaining ids unique. */
  lemma RemoveAtKeepsUnique(store: Store, i: int)
    requires UniqueIds(store)
    requires 0 <= i < |store|
    ensures UniqueIds(store[..i] + store[i + 1..])
  {
    var s := store[..i] + store[i + 1..];
    RemoveAtIndex(store, i);
    forall a, b | 0 <= a < b < |s| ensures s[a].id != s[b].id {
      var a', b' := if a < i then a else a + 1, if b < i then b else b + 1;
      assert s[a] == store[a'] && s[b] == store[b'] && a' < b';
    }
  }

  /** With unique ids, deleting a present id removes exactly that row: every
      other row stays, field for field and in order, and the id is gone. */
  lemma DeleteRemovesExactlyOne(store: Store, id: int)
    requires UniqueIds(store)
    requires HasId(store, id) && IsRowId(id)
    ensures Delete(store, id).response == Ok(())
    ensures var s := Delete(store, id).store;
      && |s| == |store| - 1
      && !HasId(s, id)
      && UniqueIds(s)
      && (forall e :: e in s <==> e in store && e.id != id)
  {
    var i := FindId(store, id).value;
    RemoveAtMembers(store, i);
    RemoveAtKeepsUnique(store, i);
    var s := Delete(store, id).store;
    forall k | 0 <= k < |s| ensures s[k].id != id {
      assert s[k] in s;
    }
  }

  /** Deleting the same id a second time finds nothing. */
  lemma DeleteTwiceNotFound(store: Store, id: int)
    requires UniqueIds(store)
    requires HasId(store, id) && IsRowId(id)
    ensures Delete(Delete(store, id).store, id) == Effect(Err(NotFound(NotFoundDetail)), Delete(store, id).store)
  {
    DeleteRemovesExactlyOne(store, id);
  }
}
