/** The older `LocalWorldModel` of model.py at the repository root. It
    shares the cleaner, the record loop and the trainer with
    src/nxcmd/model.py, but it hands each stripped line to the decoder as
    it is (no blank-line skip, no quote repair), and its `predict_next` has
    neither the early return for an empty context nor the fuzzy
    fallback. */
module LegacyModel {
  import opened OrderedDict
  import opened Counters
  import opened PyStr
  import opened JsonRepair
  import opened Segmenter
  import opened NGram
  import Predict
  import NxModel

  /** `json.loads(line.strip())` for every line, without repair; a blank
      line reaches the decoder too. */
  function LogRecords(lines: seq<string>, decode: string -> Record): (rs: seq<Record>)
  {
    seq(|lines|, k requires 0 <= k < |lines| => decode(Strip(lines[k])))
  }

  function LogSessions(log: Option<seq<string>>, decode: string -> Record, now: int): seq<seq<string>> {
    match log
    case None => []
    case Some(lines) => Sessions(LogRecords(lines, decode), now)
  }

  /** A line the decoder rejects changes nothing; a blank line is one of
      them, since `json.loads("")` raises. */
  lemma UndecodableLineSkipped(pre: seq<string>, line: string, post: seq<string>, decode: string -> Record, now: int)
    requires decode(Strip(line)) == Bad
    ensures LogSessions(Some(pre + [line] + post), decode, now) == LogSessions(Some(pre + post), decode, now)
  {
    assert LogRecords(pre + [line] + post, decode) == LogRecords(pre, decode) + [Bad] + LogRecords(post, decode);
    assert LogRecords(pre + post, decode) == LogRecords(pre, decode) + LogRecords(post, decode);
    SkipRejected(LogRecords(pre, decode), Bad, LogRecords(post, decode), now);
  }

  /** When the decoder rejects the empty string (as `json.loads("")` does)
      and no line holds a `"cmd":"…",` the repair would rewrite, the two
      parsers find the same sessions. */
  lemma SameSessionsWithoutRepair(lines: seq<string>, decode: string -> Record, now: int)
    requires decode("") == Bad
    requires forall k :: 0 <= k < |lines| ==> !HasMatch(Strip(lines[k]))
    ensures LogSessions(Some(lines), decode, now) == NxModel.LogSessions(Some(lines), decode, now)
  {
    forall k | 0 <= k < |lines|
      ensures decode(Strip(lines[k])) == NxModel.LineRecord(lines[k], decode)
    {
      FixWithoutMatch(Strip(lines[k]));
    }
    assert LogRecords(lines, decode) == NxModel.LogRecords(lines, decode);
  }

  /** `predict_next` of model.py: the exact lookups cut to `top_k`. */
  function ExactPrediction(t: Store, prev: seq<string>, k: nat): seq<Entry> {
    Take(Predict.Exact(t, prev, k), k)
  }

  /** The legacy prediction is the exact lookup itself, never longer than
      `top_k`, and empty for an empty context. */
  lemma PredictSpec(t: Store, prev: seq<string>, k: nat)
    ensures ExactPrediction(t, prev, k) == Predict.Exact(t, prev, k)
    ensures |ExactPrediction(t, prev, k)| <= k
    ensures prev == [] ==> ExactPrediction(t, prev, k) == []
  {
    Predict.ExactLength(t, prev, k);
  }

  /** Without a fallback, a valid table predicts nothing exactly when
      neither context of the query has been seen (for positive `top_k`). */
  lemma NoFallback(t: Store, prev: seq<string>, k: nat)
    requires Valid(t) && k > 0
    ensures ExactPrediction(t, prev, k) == [] <==>
      !(|prev| >= 2 && HasKey(t, Predict.TwoContext(prev))) && !(|prev| >= 1 && HasKey(t, Predict.OneContext(prev)))
  {
    PredictSpec(t, prev, k);
    Predict.ExactEmptyIff(t, prev, k);
  }

  /** The two versions agree whenever the exact lookups find something;
      otherwise the legacy one returns nothing and the newer one falls back
      to the fuzzy search. */
  lemma AgreesWithNewer(t: Store, prev: seq<string>, k: nat)
    ensures Predict.Exact(t, prev, k) != [] ==> ExactPrediction(t, prev, k) == Predict.PredictNext(t, prev, k)
    ensures Predict.Exact(t, prev, k) == [] ==>
      ExactPrediction(t, prev, k) == [] &&
      (prev != [] ==> Predict.PredictNext(t, prev, k) == Predict.Fuzzy(t, prev, k))
  {
    PredictSpec(t, prev, k);
    if prev != [] {
      Predict.PredictSpec(t, prev, k);
    }
  }

  class LocalWorldModel {
    var transitions: Store

    constructor ()
      ensures transitions == []
    {
      transitions := [];
    }

    /** `_parse_logs_into_sessions`. */
    method ParseLogsIntoSessions(log: Option<seq<string>>, decode: string -> Record, now: int)
      returns (sessions: seq<seq<string>>)
      ensures sessions == LogSessions(log, decode, now)
    {
      if log.None? {
        return [];
      }
      var records := LogRecords(log.value, decode);
      sessions := SegmentRecords(records, now);
    }

    /** One pass of the loop in `_train_on_session`. */
    method TrainAt(session: seq<string>, i: nat)
      requires i < |session|
      modifies this
      ensures transitions == TrainStep(old(transitions), session, i)
    {
      var next := session[i];
      if i >= 1 {
        transitions := Bump(transitions, [session[i - 1]], next);
      }
      if i >= 2 {
        transitions := Bump(transitions, [session[i - 2], session[i - 1]], next);
      }
    }

    /** `_train_on_session`. */
    method TrainOnSession(session: seq<string>)
      modifies this
      ensures transitions == Train(old(transitions), session)
      ensures Valid(old(transitions)) ==> Valid(transitions)
    {
      for i := 0 to |session|
        invariant transitions == TrainPrefix(old(transitions), session, i)
      {
        TrainAt(session, i);
      }
      if Valid(old(transitions)) {
        TrainValid(old(transitions), session);
      }
    }

    /** `load_and_train`. */
    method LoadAndTrain(log: Option<seq<string>>, decode: string -> Record, now: int)
      modifies this
      ensures transitions == TrainAll(old(transitions), LogSessions(log, decode, now))
    {
      var sessions := ParseLogsIntoSessions(log, decode, now);
      ghost var start := transitions;
      for j := 0 to |sessions|
        invariant transitions == TrainAll(start, sessions[..j])
      {
        TrainAllSnoc(start, sessions, j);
        TrainOnSession(sessions[j]);
      }
      assert sessions[..|sessions|] == sessions;
    }

    /** `predict_next`: the two-command context, topped up from the
        one-command context, cut to `top_k`. */
    method PredictNext(previous: seq<string>, topK: nat) returns (predictions: seq<Entry>)
      ensures predictions == ExactPrediction(transitions, previous, topK)
    {
      predictions := [];
      if |previous| >= 2 {
        var ctx := previous[|previous| - 2..];
        if HasKey(transitions, ctx) {
          // extending the empty list
          predictions := MostCommon(CounterOf(transitions, ctx), topK);
        }
      }
      ghost var two := predictions;
      assert two == Predict.TwoGram(transitions, previous, topK);
      if |previous| >= 1 && |predictions| < topK {
        var ctx := [previous[|previous| - 1]];
        if HasKey(transitions, ctx) {
          var remaining := topK - |predictions|;
          predictions := predictions + MostCommon(CounterOf(transitions, ctx), remaining);
        }
      }
      assert predictions == two + Predict.OneGram(transitions, previous, topK, |two|);
      assert predictions == Predict.Exact(transitions, previous, topK);
      predictions := Take(predictions, topK);
    }
  }
}
