/**
 `POST /journal`, without the classifiers and the text generator: those are
 the inputs `sentiment`, `emotionScores` and `generated`. The handler picks
 the highest-scoring emotion, settles the affirmation and appends a row.
 */
module Submission {
  import opened Wrappers
  import opened Text
  import opened Calendar
  import opened Models

  const FallbackAffirmation := "We're here for you. You're not alone."

  /** A classifier result: a label (`name`) and its score. */
  datatype Scored = Scored(name: string, score: int)

  /** `i` is the position `max(scores, key=score)` picks: no score is higher,
      and every earlier score is lower. */
  predicate IsFirstMax(scores: seq<Scored>, i: int) {
    && 0 <= i < |scores|
    && (forall j :: 0 <= j < |scores| ==> scores[j].score <= scores[i].score)
    && (forall j :: 0 <= j < i ==> scores[j].score < scores[i].score)
  }

  /** At most one position is the first maximum. */
  lemma FirstMaxUnique(scores: seq<Scored>, i: int, j: int)
    requires IsFirstMax(scores, i) && IsFirstMax(scores, j)
    ensures i == j
  {
    var si, sj := scores[i].score, scores[j].score;
    assert si <= sj && sj <= si;
  }

  /** Python's `max`, scanning left to right and replacing the best so far
      only by a strictly higher score. */
  function FirstMax(scores: seq<Scored>): (i: nat)
    requires |scores| > 0
    ensures IsFirstMax(scores, i)
  {
    if |scores| == 1 then 0
    else
      var init := scores[..|scores| - 1];
      var best := FirstMax(init);
      assert forall j :: 0 <= j < |init| ==> init[j] == scores[j];
      if scores[|scores| - 1].score > scores[best].score then |scores| - 1 else best
  }

  /** The same scan as a loop. */
  method PickEmotion(scores: seq<Scored>) returns (best: nat)
    requires |scores| > 0
    ensures IsFirstMax(scores, best)
  {
    best := 0;
    var i := 1;
    while i < |scores|
      invariant 1 <= i <= |scores|
      invariant best < i
      invariant forall j :: 0 <= j < i ==> scores[j].score <= scores[best].score
      invariant forall j :: 0 <= j < best ==> scores[j].score < scores[best].score
    {
      if scores[i].score > scores[best].score {
        best := i;
      }
      i := i + 1;
    }
  }

  /** The generated text with surrounding white space stripped, or the fixed
      fallback when generation failed. */
  function Affirmation(generated: Option<string>): (a: string)
    ensures generated.None? ==> a == FallbackAffirmation
    ensures generated.Some? ==>
      exists i, j :: 0 <= i <= j <= |generated.value| && a == generated.value[i..j]
        && SpaceBetween(generated.value, 0, i) && SpaceBetween(generated.value, j, |generated.value|)
    ensures generated.Some? ==> |a| == 0 || (!IsSpace(a[0]) && !IsSpace(a[|a| - 1]))
    ensures generated.Some? ==> (|a| == 0 <==> SpaceBetween(generated.value, 0, |generated.value|))
  {
    match generated
    case None => FallbackAffirmation
    case Some(text) => Strip(text)
  }

  /** The response body. */
  datatype SubmitResponse = SubmitResponse(sentiment: Scored, emotion: Scored, affirmation: string)

  /** The endpoint. `now` is the clock reading the timestamp default takes.
      An empty emotion list makes `max` raise, which the handler does not
      catch: a 500 with nothing stored. */
  function Submit(store: Store, text: string, sentiment: Scored, emotionScores: seq<Scored>,
                  generated: Option<string>, now: Tick): (r: Effect<SubmitResponse>)
    ensures r.response.Err? <==> |emotionScores| == 0
    ensures r.response.Err? ==> r.response.error == ServerError(InternalErrorDetail) && r.store == store
    ensures r.response.Ok? ==>
      && |r.store| == |store| + 1
      && r.store[..|store|] == store
      && var e := r.store[|store|];
      && !HasId(store, e.id)
      && e.text == text
      && e.sentiment == sentiment.name
      && (exists k :: IsFirstMax(emotionScores, k) && e.emotion == emotionScores[k].name
                      && r.response.value.emotion == emotionScores[k])
      && e.affirmation == Affirmation(generated)
      && e.timestamp == Some(now)
      && r.response.value == SubmitResponse(sentiment, r.response.value.emotion, e.affirmation)
  {
    if |emotionScores| == 0 then Effect(Err(ServerError(InternalErrorDetail)), store)
    else
      var emotion := emotionScores[FirstMax(emotionScores)];
      var affirmation := Affirmation(generated);
      var e := NewEntry(NextId(store), text, sentiment.name, emotion.name, affirmation, None, now);
      var s := store + [e];
      assert s[..|store|] == store;
      Effect(Ok(SubmitResponse(sentiment, emotion, affirmation)), s)
  }

  /** Submitting keeps ids unique. */
  lemma SubmitKeepsUniqueIds(store: Store, text: string, sentiment: Scored, emotionScores: seq<Scored>,
                             generated: Option<string>, now: Tick)
    requires UniqueIds(store)
    ensures UniqueIds(Submit(store, text, sentiment, emotionScores, generated, now).store)
  {
    var r := Submit(store, text, sentiment, emotionScores, generated, now);
    if r.response.Ok? {
      assert r.store == store + [r.store[|store|]];
      AppendFreshKeepsUnique(store, r.store[|store|]);
    }
  }
}
