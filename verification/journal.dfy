/**
 How the four endpoints see each other's effects on the shared table.
 */
module Journal {
  import opened Wrappers
  import opened Calendar
  import opened Models
  import opened History
  import opened Insights
  import opened Deletion
  import opened Submission

  lemma EmotionsConcat(a: Store, b: Store)
    ensures Emotions(a + b) == Emotions(a) + Emotions(b)
  {
  }

  /** The id a successful submit gives its new row. */
  function NewId(store: Store, text: string, sentiment: Scored, emotionScores: seq<Scored>,
                 generated: Option<string>, now: Tick): (id: int)
    requires |emotionScores| > 0
    ensures !HasId(store, id)
  {
    Submit(store, text, sentiment, emotionScores, generated, now).store[|store|].id
  }

  /** Deleting the row a submit just added gives back the table as it was. */
  lemma SubmitThenDelete(store: Store, text: string, sentiment: Scored, emotionScores: seq<Scored>,
                         generated: Option<string>, now: Tick)
    requires |emotionScores| > 0
    requires IsRowId(NewId(store, text, sentiment, emotionScores, generated, now))
    ensures var s := Submit(store, text, sentiment, emotionScores, generated, now).store;
      Delete(s, NewId(store, text, sentiment, emotionScores, generated, now)) == Effect(Ok(()), store)
  {
    var s := Submit(store, text, sentiment, emotionScores, generated, now).store;
    var id := NewId(store, text, sentiment, emotionScores, generated, now);
    assert s == store + [s[|store|]];
    assert FindId(s, id) == Some(|store|) by {
      assert HasId(s, id);
      var k := FindId(s, id).value;
      assert forall j :: 0 <= j < |store| ==> s[j] == store[j];
    }
    assert s[..|store|] + s[|store| + 1..] == store;
  }

  /** Counting one more label: only that label's count moves, by one. */
  lemma TallyOneMore(a: seq<string>, b: seq<string>, em: string)
    requires multiset(b) == multiset(a) + multiset{em}
    ensures em in Tally(b)
    ensures Tally(b)[em] == (if em in Tally(a) then Tally(a)[em] else 0) + 1
    ensures forall k :: k != em ==> (k in Tally(b) <==> k in Tally(a))
    ensures forall k :: k != em && k in Tally(b) ==> Tally(b)[k] == Tally(a)[k]
  {
    assert em in multiset(b);
    forall k | k != em ensures k in Tally(b) <==> k in Tally(a) {
      assert k in b <==> k in multiset(b);
      assert k in a <==> k in multiset(a);
    }
    assert em in a <==> em in multiset(a);
  }

  /** A submitted row is counted once more under its emotion. */
  lemma SubmitCountsEmotion(store: Store, text: string, sentiment: Scored, emotionScores: seq<Scored>,
                            generated: Option<string>, now: Tick)
    requires |emotionScores| > 0
    ensures var r := Submit(store, text, sentiment, emotionScores, generated, now);
      var before := GetInsights(store).emotionCounts;
      var after := GetInsights(r.store).emotionCounts;
      var em := r.response.value.emotion.name;
      && em in after
      && after[em] == (if em in before then before[em] else 0) + 1
      && (forall k :: k != em ==> (k in after <==> k in before))
      && (forall k :: k != em && k in after ==> after[k] == before[k])
  {
    var r := Submit(store, text, sentiment, emotionScores, generated, now);
    var e := r.store[|store|];
    assert r.store == store + [e];
    EmotionsConcat(store, [e]);
    assert Emotions([e]) == [e.emotion];
    TallyOneMore(Emotions(store), Emotions(r.store), e.emotion);
  }

  /** With unique ids the row a delete removes is the one at the id's position. */
  lemma DeleteAt(store: Store, i: int)
    requires UniqueIds(store)
    requires 0 <= i < |store| && IsRowId(store[i].id)
    ensures Delete(store, store[i].id) == Effect(Ok(()), store[..i] + store[i + 1..])
  {
    var k := FindId(store, store[i].id).value;
    assert k == i;
  }

  /** After a delete the removed row is in no history result, and every other
      row is in exactly the results it was in before. */
  lemma DeleteReflectedInHistory(store: Store, i: int, q: HistoryQuery, x: Entry)
    requires UniqueIds(store)
    requires 0 <= i < |store| && IsRowId(store[i].id)
    requires BuildFilter(q).Ok?
    ensures var s := Delete(store, store[i].id).store;
      && History.History(s, q).Ok?
      && store[i] !in History.History(s, q).value
      && (x != store[i] ==> (x in History.History(s, q).value <==> x in History.History(store, q).value))
  {
    var id := store[i].id;
    DeleteRemovesExactlyOne(store, id);
    var s := Delete(store, id).store;
    var f := BuildFilter(q).value;
    HistoryContents(s, q, f, store[i]);
    HistoryContents(s, q, f, x);
    HistoryContents(store, q, f, x);
    if x in store && x != store[i] {
      var k :| 0 <= k < |store| && store[k] == x;
      assert k != i;
      assert x.id != id;
    }
  }

  /** After a delete the removed row's emotion is counted once less; a count
      that drops to zero disappears from the map. */
  lemma DeleteCountsEmotion(store: Store, i: int)
    requires UniqueIds(store)
    requires 0 <= i < |store| && IsRowId(store[i].id)
    ensures var s := Delete(store, store[i].id).store;
      var before := GetInsights(store).emotionCounts;
      var after := GetInsights(s).emotionCounts;
      var em := store[i].emotion;
      && em in before
      && (em in after <==> before[em] >= 2)
      && (em in after ==> after[em] == before[em] - 1)
      && (forall k :: k != em ==> (k in after <==> k in before))
      && (forall k :: k != em && k in after ==> after[k] == before[k])
  {
    DeleteAt(store, i);
    var s := store[..i] + store[i + 1..];
    var em := store[i].emotion;
    assert store == store[..i] + [store[i]] + store[i + 1..];
    EmotionsConcat(store[..i], store[i + 1..]);
    EmotionsConcat(store[..i] + [store[i]], store[i + 1..]);
    EmotionsConcat(store[..i], [store[i]]);
    assert Emotions([store[i]]) == [em];
    assert multiset(Emotions(store)) == multiset(Emotions(s)) + multiset{em};
    TallyOneMore(Emotions(s), Emotions(store), em);
    TallyPositive(Emotions(s));
  }
}
