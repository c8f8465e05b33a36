/** The record-level loop of `_parse_logs_into_sessions` (src/nxcmd/model.py
    and its older copy model.py): each decoded log record is cleaned and
    filtered, its timestamp sanitised, and the accepted commands are cut into
    sessions wherever more than ten minutes pass between two of them;
    sessions of fewer than two commands are dropped. */
module Segmenter {
  import opened OrderedDict
  import opened PyStr
  import opened Command

  /** Seconds of inactivity after which a new session starts. */
  const SessionGap: int := 600
  /** How far into the future a timestamp may lie before it is distrusted. */
  const FutureSlack: int := 3600
  /** Timestamps before this (September 2020) are distrusted too. */
  const EarliestTs: int := 1600000000

  /** A log record once decoded: its raw `cmd` text, `int(ts)` and
      `exit_code` (0 when absent); `Bad` when the line is not JSON or lacks
      `cmd` or a `ts` that converts to an integer. */
  datatype Record = Decoded(cmd: string, ts: int, exitCode: int) | Bad

  /** An accepted command with its sanitised timestamp. */
  datatype Event = Event(cmd: string, ts: int)

  function Last<T>(s: seq<T>): T
    requires s != []
  {
    s[|s| - 1]
  }

  /** A timestamp more than an hour ahead of `now`, or before 2020, is
      replaced by `now`; any other is kept. */
  function NormalizeTs(ts: int, now: int): (t: int)
    ensures t == ts || t == now
    ensures EarliestTs <= ts <= now + FutureSlack ==> t == ts
    ensures (ts > now + FutureSlack || ts < EarliestTs) ==> t == now
    ensures EarliestTs <= now ==> EarliestTs <= t <= now + FutureSlack
  {
    if ts > now + FutureSlack || ts < EarliestTs then now else ts
  }

  /** A command the trainer will learn from: cleaned, non-empty, not a
      comment. */
  predicate Learnable(cmd: string) {
    cmd != "" && cmd[0] != '#' && WellSpaced(cmd)
  }

  /** What the parser makes of one record: the cleaned command, unless the
      record is bad, the command cleans to nothing or to a `#` comment, or
      the command failed. */
  function Accept(r: Record, now: int): (e: Option<Event>)
    ensures e.Some? ==> r.Decoded? && r.exitCode == 0 && e.value.cmd == CleanCommand(r.cmd)
    ensures e.Some? ==> Learnable(e.value.cmd)
    ensures e.Some? ==> e.value.ts == NormalizeTs(r.ts, now)
  {
    if r.Bad? then None
    else
      var cmd := CleanCommand(Strip(r.cmd));
      CleanCommandStrip(r.cmd);
      CleanCommandSpec(r.cmd);
      if cmd == "" || StartsWith(cmd, "#") || r.exitCode != 0 then None
      else Some(Event(cmd, NormalizeTs(r.ts, now)))
  }

  /** Exactly the records that decode, whose command survives cleaning as
      something other than a comment, and that exited with 0 are accepted. */
  lemma AcceptIff(r: Record, now: int)
    ensures Accept(r, now).Some? <==>
      r.Decoded? && r.exitCode == 0 && CleanCommand(r.cmd) != "" && CleanCommand(r.cmd)[0] != '#'
  {
    if r.Decoded? {
      CleanCommandStrip(r.cmd);
    }
  }

  /** The accepted events of a record sequence, in order. */
  function Accepted(rs: seq<Record>, now: int): seq<Event> {
    if rs == [] then []
    else
      Accepted(rs[..|rs| - 1], now) +
        match Accept(Last(rs), now) case None => [] case Some(e) => [e]
  }

  /** The events cut into maximal runs in which no two neighbours lie more
      than `SessionGap` seconds apart. */
  function Runs(es: seq<Event>): (runs: seq<seq<Event>>)
    ensures es == [] <==> runs == []
    ensures forall k :: 0 <= k < |runs| ==> runs[k] != []
    ensures es != [] ==> Last(Last(runs)) == Last(es)
  {
    if es == [] then []
    else
      var init := es[..|es| - 1];
      var e := Last(es);
      var before := Runs(init);
      if before == [] then [[e]]
      else if e.ts - Last(init).ts > SessionGap then before + [[e]]
      else
        var r := before[..|before| - 1] + [Last(before) + [e]];
        assert forall k :: 0 <= k < |before| - 1 ==> r[k] == before[k];
        r
  }

  function Cmds(run: seq<Event>): (cs: seq<string>)
    ensures |cs| == |run|
    ensures forall k :: 0 <= k < |run| ==> cs[k] == run[k].cmd
  {
    seq(|run|, k requires 0 <= k < |run| => run[k].cmd)
  }

  /** The command lists of the runs of at least two commands. */
  function Long(runs: seq<seq<Event>>): seq<seq<string>> {
    if runs == [] then []
    else Long(runs[..|runs| - 1]) + (if |Last(runs)| >= 2 then [Cmds(Last(runs))] else [])
  }

  /** The sessions `_parse_logs_into_sessions` returns for these records. */
  function Sessions(rs: seq<Record>, now: int): seq<seq<string>> {
    Long(Runs(Accepted(rs, now)))
  }

  /** How the runs grow by one event: it opens a new run after a gap of more
      than `SessionGap`, and otherwise joins the last run. */
  lemma RunsSnoc(es: seq<Event>, e: Event)
    ensures Runs(es + [e]) ==
      if es == [] then [[e]]
      else if e.ts - Last(es).ts > SessionGap then Runs(es) + [[e]]
      else Runs(es)[..|Runs(es)| - 1] + [Last(Runs(es)) + [e]]
  {
    assert (es + [e])[..|es|] == es;
  }

  lemma LongSnoc(runs: seq<seq<Event>>, r: seq<Event>)
    ensures Long(runs + [r]) == Long(runs) + (if |r| >= 2 then [Cmds(r)] else [])
  {
    assert (runs + [r])[..|runs|] == runs;
  }

  lemma AcceptUnfold(r: Record, now: int)
    ensures Accept(r, now) ==
      if r.Bad? then None
      else
        var cmd := CleanCommand(Strip(r.cmd));
        if cmd == "" || StartsWith(cmd, "#") || r.exitCode != 0 then None
        else Some(Event(cmd, NormalizeTs(r.ts, now)))
  {
  }

  lemma AcceptedSnoc(rs: seq<Record>, i: nat, now: int)
    requires i < |rs|
    ensures Accepted(rs[..i + 1], now) ==
      Accepted(rs[..i], now) + match Accept(rs[i], now) case None => [] case Some(e) => [e]
  {
    assert rs[..i + 1][..i] == rs[..i];
  }

  /** The loop's state stands for the events accepted so far: the open buffer
      holds the commands of the last run, `lastTs` is the last event's time,
      and the closed sessions are those of the earlier runs. */
  predicate Tracks(es: seq<Event>, current: seq<string>, lastTs: int, sessions: seq<seq<string>>) {
    if es == [] then current == [] && sessions == []
    else
      var runs := Runs(es);
      current == Cmds(Last(runs)) && lastTs == Last(es).ts && sessions == Long(runs[..|runs| - 1])
  }

  lemma TracksGap(es: seq<Event>, e: Event, current: seq<string>, lastTs: int, sessions: seq<seq<string>>)
    requires Tracks(es, current, lastTs, sessions)
    requires current != [] && e.ts - lastTs > SessionGap
    ensures Tracks(es + [e], [e.cmd], e.ts, sessions + if |current| >= 2 then [current] else [])
  {
    RunsSnoc(es, e);
    var runs := Runs(es);
    assert (runs + [[e]])[..|runs|] == runs;
    assert runs == runs[..|runs| - 1] + [Last(runs)];
    LongSnoc(runs[..|runs| - 1], Last(runs));
    assert Cmds([e]) == [e.cmd];
  }

  lemma TracksJoin(es: seq<Event>, e: Event, current: seq<string>, lastTs: int, sessions: seq<seq<string>>)
    requires Tracks(es, current, lastTs, sessions)
    requires !(current != [] && e.ts - lastTs > SessionGap)
    ensures Tracks(es + [e], current + [e.cmd], e.ts, sessions)
  {
    RunsSnoc(es, e);
    if es == [] {
      assert Cmds([e]) == [e.cmd];
    } else {
      var runs := Runs(es);
      var runs' := runs[..|runs| - 1] + [Last(runs) + [e]];
      assert runs'[..|runs'| - 1] == runs[..|runs| - 1];
      assert Cmds(Last(runs) + [e]) == Cmds(Last(runs)) + [e.cmd];
    }
  }

  lemma TracksFinish(es: seq<Event>, current: seq<string>, lastTs: int, sessions: seq<seq<string>>)
    requires Tracks(es, current, lastTs, sessions)
    ensures sessions + (if |current| >= 2 then [current] else []) == Long(Runs(es))
  {
    if es != [] {
      var runs := Runs(es);
      assert runs == runs[..|runs| - 1] + [Last(runs)];
      LongSnoc(runs[..|runs| - 1], Last(runs));
    }
  }

  /** The parser's loop: a buffer for the open session and the timestamp of
      the last accepted command. */
  method SegmentRecords(rs: seq<Record>, now: int) returns (sessions: seq<seq<string>>)
    ensures sessions == Sessions(rs, now)
  {
    sessions := [];
    var current: seq<string> := [];
    var lastTs := 0;
    ghost var es: seq<Event> := [];
    for i := 0 to |rs|
      invariant es == Accepted(rs[..i], now)
      invariant Tracks(es, current, lastTs, sessions)
    {
      AcceptedSnoc(rs, i, now);
      var r := rs[i];
      AcceptUnfold(r, now);
      if r.Decoded? {
        var cmd := CleanCommand(Strip(r.cmd));
        if !(cmd == "" || StartsWith(cmd, "#") || r.exitCode != 0) {
          var ts := r.ts;
          if ts > now + FutureSlack || ts < EarliestTs {
            ts := now;
          }
          ghost var e := Event(cmd, ts);
          if current != [] && ts - lastTs > SessionGap {
            TracksGap(es, e, current, lastTs, sessions);
            if |current| >= 2 {
              sessions := sessions + [current];
            }
            current := [cmd];
          } else {
            TracksJoin(es, e, current, lastTs, sessions);
            current := current + [cmd];
          }
          lastTs := ts;
          es := es + [e];
        }
      }
    }
    assert rs[..|rs|] == rs;
    TracksFinish(es, current, lastTs, sessions);
    if |current| >= 2 {
      sessions := sessions + [current];
    }
  }

  /** Runs concatenated in order give back the events. */
  function Flatten(runs: seq<seq<Event>>): seq<Event> {
    if runs == [] then [] else Flatten(runs[..|runs| - 1]) + Last(runs)
  }

  lemma {:induction false} RunsFlatten(es: seq<Event>)
    ensures Flatten(Runs(es)) == es
  {
    if es != [] {
      var init, e := es[..|es| - 1], Last(es);
      assert es == init + [e];
      RunsSnoc(init, e);
      RunsFlatten(init);
      if init == [] {
      } else if e.ts - Last(init).ts > SessionGap {
        FlattenSnoc(Runs(init), [e]);
      } else {
        FlattenExtendLast(Runs(init), e);
      }
    }
  }

  lemma FlattenSnoc(runs: seq<seq<Event>>, r: seq<Event>)
    ensures Flatten(runs + [r]) == Flatten(runs) + r
  {
    assert (runs + [r])[..|runs|] == runs;
  }

  lemma FlattenExtendLast(runs: seq<seq<Event>>, e: Event)
    requires runs != []
    ensures Flatten(runs[..|runs| - 1] + [Last(runs) + [e]]) == Flatten(runs) + [e]
  {
    var init := runs[..|runs| - 1];
    FlattenSnoc(init, Last(runs) + [e]);
    assert Flatten(runs) == Flatten(init) + Last(runs);
  }

  /** Within each run, each command follows the previous one by at most ten
      minutes. */
  predicate CloseWithin(runs: seq<seq<Event>>) {
    forall k, j :: 0 <= k < |runs| && 0 < j < |runs[k]| ==> runs[k][j].ts - runs[k][j - 1].ts <= SessionGap
  }

  lemma {:induction false} RunsInnerGaps(es: seq<Event>)
    ensures CloseWithin(Runs(es))
  {
    if es != [] {
      var init, e := es[..|es| - 1], Last(es);
      assert es == init + [e];
      RunsSnoc(init, e);
      RunsInnerGaps(init);
      if init != [] && e.ts - Last(init).ts <= SessionGap {
        ExtendCloseWithin(Runs(init), e);
      } else if init != [] {
        NewRunCloseWithin(Runs(init), e);
      }
    }
  }

  lemma ExtendCloseWithin(before: seq<seq<Event>>, e: Event)
    requires before != [] && Last(before) != [] && CloseWithin(before)
    requires e.ts - Last(Last(before)).ts <= SessionGap
    ensures CloseWithin(before[..|before| - 1] + [Last(before) + [e]])
  {
    var runs: seq<seq<Event>> := before[..|before| - 1] + [Last(before) + [e]];
    forall k, j | 0 <= k < |runs| && 0 < j < |runs[k]| ensures runs[k][j].ts - runs[k][j - 1].ts <= SessionGap {
      if k < |before| - 1 {
        assert runs[k] == before[k];
      } else {
        var lb := Last(before);
        assert runs[k] == lb + [e];
        if j < |lb| {
          assert lb == before[|before| - 1];
          assert runs[k][j] == lb[j] && runs[k][j - 1] == lb[j - 1];
        } else {
          assert runs[k][j - 1] == Last(lb);
        }
      }
    }
  }

  lemma NewRunCloseWithin(before: seq<seq<Event>>, e: Event)
    requires CloseWithin(before)
    ensures CloseWithin(before + [[e]])
  {
    var runs: seq<seq<Event>> := before + [[e]];
    forall k, j | 0 <= k < |runs| && 0 < j < |runs[k]| ensures runs[k][j].ts - runs[k][j - 1].ts <= SessionGap {
      assert k < |before|;
      assert runs[k] == before[k];
    }
  }

  /** Each run starts more than ten minutes after the previous one ended. */
  lemma {:induction false} RunsOuterGaps(es: seq<Event>)
    ensures var runs := Runs(es);
      forall k :: 0 < k < |runs| ==> runs[k][0].ts - Last(runs[k - 1]).ts > SessionGap
  {
    if es != [] {
      var init, e := es[..|es| - 1], Last(es);
      assert es == init + [e];
      RunsSnoc(init, e);
      RunsOuterGaps(init);
      var before := Runs(init);
      var runs: seq<seq<Event>> := Runs(es);
      if init != [] && e.ts - Last(init).ts <= SessionGap {
        assert runs == before[..|before| - 1] + [Last(before) + [e]];
        forall k | 0 < k < |runs| ensures runs[k][0].ts - Last(runs[k - 1]).ts > SessionGap {
          assert runs[k - 1] == before[k - 1];
          if k < |before| - 1 {
            assert runs[k] == before[k];
          } else {
            assert runs[k][0] == Last(before)[0] == before[k][0];
          }
        }
      } else if init != [] {
        assert runs == before + [[e]];
        forall k | 0 < k < |runs| ensures runs[k][0].ts - Last(runs[k - 1]).ts > SessionGap {
          if k < |before| {
            assert runs[k] == before[k] && runs[k - 1] == before[k - 1];
          } else {
            assert runs[k - 1] == Last(before);
            assert runs[k][0] == e;
          }
        }
      }
    }
  }

  /** Every session returned holds at least two commands. */
  lemma {:induction false} LongAtLeastTwo(runs: seq<seq<Event>>)
    ensures forall k :: 0 <= k < |Long(runs)| ==> |Long(runs)[k]| >= 2
  {
    if runs != [] {
      LongAtLeastTwo(runs[..|runs| - 1]);
    }
  }

  lemma SessionsAtLeastTwo(rs: seq<Record>, now: int)
    ensures forall k :: 0 <= k < |Sessions(rs, now)| ==> |Sessions(rs, now)[k]| >= 2
  {
    LongAtLeastTwo(Runs(Accepted(rs, now)));
  }

  lemma {:induction false} AcceptedLearnable(rs: seq<Record>, now: int)
    ensures forall k :: 0 <= k < |Accepted(rs, now)| ==> Learnable(Accepted(rs, now)[k].cmd)
  {
    if rs != [] {
      AcceptedLearnable(rs[..|rs| - 1], now);
    }
  }

  lemma {:induction false} LongLearnable(runs: seq<seq<Event>>)
    requires forall e :: e in Flatten(runs) ==> Learnable(e.cmd)
    ensures forall s, c :: s in Long(runs) && c in s ==> Learnable(c)
  {
    if runs != [] {
      var init := runs[..|runs| - 1];
      assert Flatten(runs) == Flatten(init) + Last(runs);
      LongLearnable(init);
      forall c | c in Cmds(Last(runs)) ensures Learnable(c) {
        var k :| 0 <= k < |Last(runs)| && Cmds(Last(runs))[k] == c;
        assert Last(runs)[k] in Flatten(runs);
      }
    }
  }

  /** Every command in every session is a cleaned, non-empty, non-comment
      command. */
  lemma SessionsLearnable(rs: seq<Record>, now: int)
    ensures forall s, c :: s in Sessions(rs, now) && c in s ==> Learnable(c)
  {
    var es := Accepted(rs, now);
    AcceptedLearnable(rs, now);
    RunsFlatten(es);
    LongLearnable(Runs(es));
  }

  lemma {:induction false} AcceptedConcat(a: seq<Record>, b: seq<Record>, now: int)
    ensures Accepted(a + b, now) == Accepted(a, now) + Accepted(b, now)
    decreases |b|
  {
    if b == [] {
      assert a + b == a;
    } else {
      assert (a + b)[..|a + b| - 1] == a + b[..|b| - 1];
      AcceptedConcat(a, b[..|b| - 1], now);
    }
  }

  lemma AcceptedSingle(r: Record, now: int)
    ensures Accepted([r], now) == match Accept(r, now) case None => [] case Some(e) => [e]
  {
    assert [r][..0] == [];
  }

  lemma AcceptedSkip(a: seq<Record>, r: Record, b: seq<Record>, now: int)
    requires Accept(r, now).None?
    ensures Accepted(a + [r] + b, now) == Accepted(a + b, now)
  {
    AcceptedConcat(a + [r], b, now);
    AcceptedConcat(a, [r], now);
    AcceptedConcat(a, b, now);
    AcceptedSingle(r, now);
  }

  /** A record that is rejected (undecodable, empty, a comment, or failed)
      might as well not be there: leaving it out changes no session. */
  lemma SkipRejected(a: seq<Record>, r: Record, b: seq<Record>, now: int)
    requires Accept(r, now).None?
    ensures Sessions(a + [r] + b, now) == Sessions(a + b, now)
  {
    AcceptedSkip(a, r, b, now);
  }
  lemma {:induction false} AcceptedTimes(rs: seq<Record>, now: int)
    requires EarliestTs <= now
    ensures forall k :: 0 <= k < |Accepted(rs, now)| ==> EarliestTs <= Accepted(rs, now)[k].ts <= now + FutureSlack
  {
    if rs != [] {
      AcceptedTimes(rs[..|rs| - 1], now);
    }
  }

  /** With a clock past 2020, every command the parser keeps carries a
      timestamp between 2020 and an hour from now. */
  lemma SessionTimes(rs: seq<Record>, now: int)
    requires EarliestTs <= now
    ensures forall run, e :: run in Runs(Accepted(rs, now)) && e in run ==> EarliestTs <= e.ts <= now + FutureSlack
  {
    var es := Accepted(rs, now);
    AcceptedTimes(rs, now);
    RunsFlatten(es);
    FlattenMembers(Runs(es));
  }

  lemma {:induction false} FlattenMembers(runs: seq<seq<Event>>)
    ensures forall run, e :: run in runs && e in run ==> e in Flatten(runs)
  {
    if runs != [] {
      FlattenMembers(runs[..|runs| - 1]);
      assert runs == runs[..|runs| - 1] + [Last(runs)];
    }
  }
}
