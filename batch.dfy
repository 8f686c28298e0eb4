/**
 * `process_batch`: one synthesis call per item, one result entry per item.
 * The synthesis call itself (network, audio encoding, file writes) is a
 * parameter: `synthesize(i, text)` is what the `i`-th call returned or
 * raised.
 */
module Batch {

  /** What one call of the synthesis task produced: the saved file's name, or
      the text of the exception it raised. */
  datatype SynthOutcome = Saved(filename: string) | Raised(message: string)

  /** One entry of the batch result: `{"text", "result"}` or `{"text", "error"}`. */
  datatype Entry = Done(text: string, result: string) | Failed(text: string, error: string)

  /** Runs every item in order, catching each item's failure so that the
      items after it are still processed. Entry `i` is for `texts[i]` and
      carries the file name when that call succeeded, its error otherwise. */
  method ProcessBatch(texts: seq<string>, synthesize: (nat, string) -> SynthOutcome) returns (results: seq<Entry>)
    ensures |results| == |texts|
    ensures forall i :: 0 <= i < |texts| ==> results[i].text == texts[i]
    ensures forall i :: 0 <= i < |texts| ==>
              (results[i].Done? <==> synthesize(i, texts[i]).Saved?)
    ensures forall i :: 0 <= i < |texts| && results[i].Done? ==>
              results[i].result == synthesize(i, texts[i]).filename
    ensures forall i :: 0 <= i < |texts| && results[i].Failed? ==>
              results[i].error == synthesize(i, texts[i]).message
  {
    results := [];
    var i := 0;
    while i < |texts|
      invariant 0 <= i <= |texts|
      invariant |results| == i
      invariant forall j :: 0 <= j < i ==> results[j].text == texts[j]
      invariant forall j :: 0 <= j < i ==>
                  match synthesize(j, texts[j])
                  case Saved(f) => results[j] == Done(texts[j], f)
                  case Raised(m) => results[j] == Failed(texts[j], m)
    {
      var text := texts[i];
      match synthesize(i, text) {
        case Saved(filename) =>
          results := results + [Done(text, filename)];
        case Raised(message) =>
          results := results + [Failed(text, message)];
      }
      i := i + 1;
    }
  }

  /** The number of failed entries: none exactly when every entry is a
      success, and all of them exactly when every entry failed. */
  function FailedCount(results: seq<Entry>): (n: nat)
    ensures n <= |results|
    ensures n == 0 <==> forall k :: 0 <= k < |results| ==> results[k].Done?
    ensures n == |results| <==> forall k :: 0 <= k < |results| ==> results[k].Failed?
  {
    if results == [] then 0
    else (if results[0].Failed? then 1 else 0) + FailedCount(results[1..])
  }

  /** The number of calls that raised, over the first `|texts|` calls. */
  function RaisedCount(texts: seq<string>, synthesize: (nat, string) -> SynthOutcome, from: nat): nat
    decreases |texts|
  {
    if texts == [] then 0
    else (if synthesize(from, texts[0]).Raised? then 1 else 0)
         + RaisedCount(texts[1..], synthesize, from + 1)
  }

  /** A batch fails item by item, never as a whole: a result list that
      matches the calls as `ProcessBatch` promises has exactly as many failed
      entries as calls that raised, and every other entry is a success. */
  lemma {:induction false} FailuresAreCounted(texts: seq<string>, synthesize: (nat, string) -> SynthOutcome,
                                              from: nat, results: seq<Entry>)
    requires |results| == |texts|
    requires forall i :: 0 <= i < |texts| ==> (results[i].Done? <==> synthesize(from + i, texts[i]).Saved?)
    ensures FailedCount(results) == RaisedCount(texts, synthesize, from)
    decreases |texts|
  {
    if texts != [] {
      assert results[0].Done? <==> synthesize(from, texts[0]).Saved?;
      forall i | 0 <= i < |texts| - 1
        ensures results[1..][i].Done? <==> synthesize(from + 1 + i, texts[1..][i]).Saved?
      {
        assert results[1..][i] == results[i + 1] && texts[1..][i] == texts[i + 1];
      }
      FailuresAreCounted(texts[1..], synthesize, from + 1, results[1..]);
    }
  }
}
