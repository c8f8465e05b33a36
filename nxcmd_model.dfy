/** `LocalWorldModel` of src/nxcmd/model.py: the transition table as a field
    that training updates in place, and the read-only queries over it. The
    history file is given as its lines (None when it does not exist), JSON
    decoding as the function `decode`, and the clock as `now`. */
module NxModel {
  import opened OrderedDict
  import opened Counters
  import opened PyStr
  import opened JsonRepair
  import opened Segmenter
  import opened NGram
  import Predict
  import opened Stats

  /** What the reader makes of one line: strip it, skip it when blank,
      repair its `cmd` quoting, then decode it. */
  function LineRecord(line: string, decode: string -> Record): Record {
    var l := Strip(line);
    if l == "" then Bad else decode(FixJsonLine(l))
  }

  function LogRecords(lines: seq<string>, decode: string -> Record): (rs: seq<Record>)
  {
    seq(|lines|, k requires 0 <= k < |lines| => LineRecord(lines[k], decode))
  }

  /** The sessions of a history file; a missing file has none. */
  function LogSessions(log: Option<seq<string>>, decode: string -> Record, now: int): seq<seq<string>> {
    match log
    case None => []
    case Some(lines) => Sessions(LogRecords(lines, decode), now)
  }

  /** A blank line is skipped before it reaches the decoder. */
  lemma BlankLineSkipped(pre: seq<string>, line: string, post: seq<string>, decode: string -> Record, now: int)
    requires Strip(line) == ""
    ensures LogSessions(Some(pre + [line] + post), decode, now) == LogSessions(Some(pre + post), decode, now)
  {
    LogRecordsConcat(pre + [line], post, decode);
    LogRecordsConcat(pre, [line], decode);
    LogRecordsConcat(pre, post, decode);
    assert LogRecords([line], decode) == [Bad];
    SkipRejected(LogRecords(pre, decode), Bad, LogRecords(post, decode), now);
  }

  lemma LogRecordsConcat(a: seq<string>, b: seq<string>, decode: string -> Record)
    ensures LogRecords(a + b, decode) == LogRecords(a, decode) + LogRecords(b, decode)
  {
    var r, ra, rb := LogRecords(a + b, decode), LogRecords(a, decode), LogRecords(b, decode);
    forall k | 0 <= k < |a + b| ensures r[k] == (ra + rb)[k] {
      if k < |a| {
        assert (a + b)[k] == a[k];
      } else {
        assert (a + b)[k] == b[k - |a|];
      }
    }
  }

  /** What one line hands the decoder: nothing when it is blank after
      stripping, otherwise the stripped line repaired. */
  function RepairedLine(line: string): seq<string> {
    var l := Strip(line);
    if l == "" then [] else [FixJsonLine(l)]
  }

  /** The lines the decoder sees, in file order. */
  function RepairedLines(lines: seq<string>): (r: seq<string>)
    ensures |r| <= |lines|
  {
    if lines == [] then [] else RepairedLine(lines[0]) + RepairedLines(lines[1..])
  }

  function DecodeAll(ls: seq<string>, decode: string -> Record): (rs: seq<Record>)
  {
    seq(|ls|, k requires 0 <= k < |ls| => decode(ls[k]))
  }

  /** The sessions of a history file are those of the decoded repaired
      non-blank lines: a blank line contributes nothing, and every other
      line reaches the decoder only after the quote repair. */
  lemma {:induction false} SessionsOfRepairedLines(lines: seq<string>, decode: string -> Record, now: int)
    ensures LogSessions(Some(lines), decode, now) == Sessions(DecodeAll(RepairedLines(lines), decode), now)
  {
    AcceptedRepaired(lines, decode, now);
  }

  lemma {:induction false} AcceptedRepaired(lines: seq<string>, decode: string -> Record, now: int)
    ensures Accepted(LogRecords(lines, decode), now) == Accepted(DecodeAll(RepairedLines(lines), decode), now)
  {
    if lines != [] {
      var line, rest := lines[0], lines[1..];
      AcceptedRepaired(rest, decode, now);
      var a, b := LogRecords([line], decode), LogRecords(rest, decode);
      var h, t := DecodeAll(RepairedLine(line), decode), DecodeAll(RepairedLines(rest), decode);
      assert lines == [line] + rest;
      LogRecordsConcat([line], rest, decode);
      DecodeAllConcat(RepairedLine(line), RepairedLines(rest), decode);
      AcceptedConcat(a, b, now);
      AcceptedConcat(h, t, now);
      AcceptedLine(line, decode, now);
    }
  }

  /** One line accepts what its repaired form, if any, accepts. */
  lemma AcceptedLine(line: string, decode: string -> Record, now: int)
    ensures Accepted(LogRecords([line], decode), now) == Accepted(DecodeAll(RepairedLine(line), decode), now)
  {
    if Strip(line) == "" {
      assert LogRecords([line], decode) == [Bad];
      AcceptedSingle(Bad, now);
      assert DecodeAll(RepairedLine(line), decode) == [];
    } else {
      assert LogRecords([line], decode) == DecodeAll(RepairedLine(line), decode);
    }
  }

  lemma DecodeAllConcat(a: seq<string>, b: seq<string>, decode: string -> Record)
    ensures DecodeAll(a + b, decode) == DecodeAll(a, decode) + DecodeAll(b, decode)
  {
    var r, ra, rb := DecodeAll(a + b, decode), DecodeAll(a, decode), DecodeAll(b, decode);
    forall k | 0 <= k < |a + b| ensures r[k] == (ra + rb)[k] {
      if k < |a| {
        assert (a + b)[k] == a[k];
      } else {
        assert (a + b)[k] == b[k - |a|];
      }
    }
  }

  class LocalWorldModel {
    /** `{context: Counter({next command: count})}`. */
    var transitions: Store

    constructor ()
      ensures transitions == []
    {
      transitions := [];
    }

    /** `_parse_logs_into_sessions`. */
    method ParseLogsIntoSessions(log: Option<seq<string>>, decode: string -> Record, now: int)
      returns (sessions: seq<seq<string>>)
      ensures sessions == LogSessions(log, decode, now)
    {
      if log.None? {
        return [];
      }
      var records := LogRecords(log.value, decode);
      sessions := SegmentRecords(records, now);
    }

    /** One pass of the loop in `_train_on_session`: bump the
        one-command context ending before position `i`, then the
        two-command context. */
    method TrainAt(session: seq<string>, i: nat)
      requires i < |session|
      modifies this
      ensures transitions == TrainStep(old(transitions), session, i)
    {
      var next := session[i];
      if i >= 1 {
        transitions := Bump(transitions, [session[i - 1]], next);
      }
      if i >= 2 {
        transitions := Bump(transitions, [session[i - 2], session[i - 1]], next);
      }
    }

    /** `_train_on_session`: every position of the session in order. */
    method TrainOnSession(session: seq<string>)
      modifies this
      ensures transitions == Train(old(transitions), session)
      ensures Valid(old(transitions)) ==> Valid(transitions)
    {
      for i := 0 to |session|
        invariant transitions == TrainPrefix(old(transitions), session, i)
      {
        TrainAt(session, i);
      }
      if Valid(old(transitions)) {
        TrainValid(old(transitions), session);
      }
    }

    /** `load_and_train`: parse the log into sessions and train on each. */
    method LoadAndTrain(log: Option<seq<string>>, decode: string -> Record, now: int)
      modifies this
      ensures transitions == TrainAll(old(transitions), LogSessions(log, decode, now))
    {
      var sessions := ParseLogsIntoSessions(log, decode, now);
      ghost var start := transitions;
      for j := 0 to |sessions|
        invariant transitions == TrainAll(start, sessions[..j])
      {
        TrainAllSnoc(start, sessions, j);
        TrainOnSession(sessions[j]);
      }
      assert sessions[..|sessions|] == sessions;
    }

    /** `predict_next`: the two-command context, topped up from the
        one-command context, with the fuzzy fallback when both find
        nothing. */
    method PredictNext(previous: seq<string>, topK: nat) returns (predictions: seq<Entry>)
      ensures predictions == Predict.PredictNext(transitions, previous, topK)
    {
      if previous == [] {
        return [];
      }
      predictions := [];
      if |previous| >= 2 {
        var ctx := previous[|previous| - 2..];
        if HasKey(transitions, ctx) {
          // extending the empty list
          predictions := MostCommon(CounterOf(transitions, ctx), topK);
        }
      }
      ghost var two := predictions;
      assert two == Predict.TwoGram(transitions, previous, topK);
      if |previous| >= 1 && |predictions| < topK {
        var ctx := [previous[|previous| - 1]];
        if HasKey(transitions, ctx) {
          var remaining := topK - |predictions|;
          predictions := predictions + MostCommon(CounterOf(transitions, ctx), remaining);
        }
      }
      assert predictions == two + Predict.OneGram(transitions, previous, topK, |two|);
      assert predictions == Predict.Exact(transitions, previous, topK);
      if predictions == [] {
        predictions := FuzzyPredict(previous, topK);
      }
      predictions := Take(predictions, topK);
    }

    /** `_fuzzy_predict`: gather the top three of every context whose text
        mentions a query command, keep each command's largest count, sort
        by count and cut to `top_k`. */
    method FuzzyPredict(context: seq<string>, topK: nat) returns (predictions: seq<Entry>)
      ensures predictions == Predict.Fuzzy(transitions, context, topK)
    {
      var all: seq<Entry> := [];
      for i := 0 to |transitions|
        invariant all == Predict.Candidates(transitions[..i], context)
      {
        Predict.CandidatesSnoc(transitions, i, context);
        var (ctx, counter) := transitions[i];
        var ctxStr := Join(ctx);
        if Predict.Mentions(context, ctxStr) {
          all := all + MostCommon(counter, 3);
        }
      }
      assert transitions[..|transitions|] == transitions;
      var unique: Counter := [];
      for j := 0 to |all|
        invariant unique == Predict.MaxMerge(all[..j])
      {
        assert all[..j + 1] == all[..j] + [all[j]];
        Predict.MaxMergeSnoc(all[..j], all[j]);
        var cmd := all[j].0;
        var count: nat := all[j].1;
        if !HasKey(unique, cmd) || count > Count(unique, cmd) {
          unique := Put(unique, cmd, count);
        }
      }
      assert all[..|all|] == all;
      var sorted := SortByCount(unique);
      predictions := Take(sorted, topK);
    }

    /** `get_command_stats`, returning what it prints. */
    method GetCommandStats() returns (contexts: nat, total: nat, top: seq<Entry>)
      ensures Report(contexts, total, top) == CommandStats(transitions)
    {
      total := 0;
      for i := 0 to |transitions|
        invariant total == TotalTransitions(transitions[..i])
      {
        assert transitions[..i + 1][..i] == transitions[..i];
        total := total + |transitions[i].1|;
      }
      assert transitions[..|transitions|] == transitions;
      contexts := |transitions|;
      var all: Counter := [];
      for i := 0 to |transitions|
        invariant all == CommandTotals(transitions[..i])
      {
        assert transitions[..i + 1][..i] == transitions[..i];
        var counter := transitions[i].1;
        for j := 0 to |counter|
          invariant all == AddAll(CommandTotals(transitions[..i]), counter[..j])
        {
          assert counter[..j + 1][..j] == counter[..j];
          all := Increment(all, counter[j].0, counter[j].1);
        }
        assert counter[..|counter|] == counter;
      }
      top := MostCommon(all, 5);
    }
  }
}
