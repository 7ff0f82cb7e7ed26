/**
 The `journal_entries` table: one record per journal submission, and the
 table itself as an in-memory sequence of records.
 */
module Models {
  import opened Wrappers
  import opened Calendar

  /** One row. `text`, `sentiment`, `emotion` and `affirmation` are NOT NULL
      columns and so are plain strings; `timestamp` is nullable. */
  datatype Entry = Entry(
    id: int,
    text: string,
    sentiment: string,
    emotion: string,
    affirmation: string,
    timestamp: Option<Tick>)

  /** The table's rows, in storage order. */
  type Store = seq<Entry>

  /** The errors the endpoints raise, by HTTP status. */
  datatype ApiError =
    | BadRequest(detail: string)   // 400
    | NotFound(detail: string)     // 404
    | ServerError(detail: string)  // 500: an exception the handler does not catch

  /** What a request that may change the table returns: the response, and
      the table after the request. */
  datatype Effect<T> = Effect(response: Result<T, ApiError>, store: Store)

  /** A value SQLite can bind as an INTEGER: a signed 64-bit integer. */
  predicate IsRowId(id: int) {
    -0x8000_0000_0000_0000 <= id <= 0x7FFF_FFFF_FFFF_FFFF
  }

  /** The body of the 500 answer to an exception the handler does not catch. */
  const InternalErrorDetail := "Internal Server Error"

  predicate HasId(store: Store, id: int) {
    exists i :: 0 <= i < |store| && store[i].id == id
  }

  /** `id` is the primary key: no two rows share one. */
  predicate UniqueIds(store: Store) {
    forall i, j :: 0 <= i < j < |store| ==> store[i].id != store[j].id
  }

  /** A row as the ORM inserts it: `timestamp`, when not supplied, takes
      its column default, the current time. */
  function NewEntry(id: int, text: string, sentiment: string, emotion: string,
                    affirmation: string, timestamp: Option<Tick>, now: Tick): (e: Entry)
    ensures e.timestamp.Some?
    ensures timestamp.Some? ==> e.timestamp == timestamp
    ensures timestamp.None? ==> e.timestamp == Some(now)
    ensures e.id == id && e.text == text && e.sentiment == sentiment
    ensures e.emotion == emotion && e.affirmation == affirmation
  {
    var stamp := if timestamp.Some? then timestamp.value else now;
    Entry(id, text, sentiment, emotion, affirmation, Some(stamp))
  }

  function MaxId(store: Store): (m: int)
    requires |store| > 0
    ensures HasId(store, m)
    ensures forall i :: 0 <= i < |store| ==> store[i].id <= m
  {
    if |store| == 1 then store[0].id
    else
      var rest := MaxId(store[1..]);
      assert forall i :: 1 <= i < |store| ==> store[i] == store[1..][i - 1];
      if store[0].id >= rest then store[0].id else rest
  }

  /** The id SQLite gives a new row of an INTEGER PRIMARY KEY table without
      AUTOINCREMENT: one more than the largest id in use, or 1 when the
      table is empty. It is never the id of a live row. */
  function NextId(store: Store): (id: int)
    ensures !HasId(store, id)
    ensures forall i :: 0 <= i < |store| ==> store[i].id < id
    ensures |store| == 0 ==> id == 1
  {
    if |store| == 0 then 1 else MaxId(store) + 1
  }

  /** Appending a row with a fresh id keeps ids unique. */
  lemma AppendFreshKeepsUnique(store: Store, e: Entry)
    requires UniqueIds(store)
    requires !HasId(store, e.id)
    ensures UniqueIds(store + [e])
  {
  }

  /** The rows satisfying `keep`, in storage order. */
  function KeepWhere(store: Store, keep: Entry -> bool): (r: Store)
    ensures forall x :: multiset(r)[x] == (if keep(x) then multiset(store)[x] else 0)
    ensures forall x :: x in r <==> x in store && keep(x)
    ensures UniqueIds(store) ==> UniqueIds(r)
  {
    if |store| == 0 then []
    else
      var h := store[0];
      var rest := KeepWhere(store[1..], keep);
      assert multiset(store) == multiset{h} + multiset(store[1..]) by {
        assert store == [h] + store[1..];
      }
      TailKeepsUnique(store);
      if keep(h) then
        assert multiset([h] + rest) == multiset{h} + multiset(rest);
        assert UniqueIds(store) ==> UniqueIds([h] + rest) by {
          if UniqueIds(store) {
            ConsKeepsUnique(h, rest);
          }
        }
        [h] + rest
      else rest
  }

  /** A row whose id no other row has can be put in front. */
  lemma ConsKeepsUnique(h: Entry, rest: Store)
    requires UniqueIds(rest)
    requires forall x :: x in rest ==> x.id != h.id
    ensures UniqueIds([h] + rest)
  {
    var s := [h] + rest;
    forall i, j | 0 <= i < j < |s| ensures s[i].id != s[j].id {
      assert s[j] == rest[j - 1];
      if i > 0 {
        assert s[i] == rest[i - 1];
      }
    }
  }

  lemma TailKeepsUnique(store: Store)
    requires |store| > 0
    ensures UniqueIds(store) ==> UniqueIds(store[1..])
    ensures UniqueIds(store) ==> forall x :: x in store[1..] ==> x.id != store[0].id
  {
  }
}
