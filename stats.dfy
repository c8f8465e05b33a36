/** What `get_command_stats` reports about a table: how many contexts it
    holds, how many (context, next command) transitions, and the five
    commands with the largest counts summed over all contexts. */
module Stats {
  import opened OrderedDict
  import opened Counters
  import opened NGram

  /** `sum(len(counter) for counter in transitions.values())`. */
  function TotalTransitions(t: Store): nat {
    if t == [] then 0 else TotalTransitions(t[..|t| - 1]) + |t[|t| - 1].1|
  }

  /** `acc[cmd] += count` for each entry of `c`, in order. */
  function AddAll(acc: Counter, c: Counter): Counter {
    if c == [] then acc
    else Increment(AddAll(acc, c[..|c| - 1]), c[|c| - 1].0, c[|c| - 1].1)
  }

  /** `all_commands`: every Counter of the table added up. */
  function CommandTotals(t: Store): Counter {
    if t == [] then [] else AddAll(CommandTotals(t[..|t| - 1]), t[|t| - 1].1)
  }

  /** The sum of the counts `c` holds for `cmd`. */
  function EntrySum(c: Counter, cmd: string): nat {
    if c == [] then 0
    else EntrySum(c[..|c| - 1], cmd) + (if c[|c| - 1].0 == cmd then c[|c| - 1].1 else 0)
  }

  /** The sum over all contexts of the count of `cmd` there. */
  function SumOverContexts(t: Store, cmd: string): nat {
    if t == [] then 0 else SumOverContexts(t[..|t| - 1], cmd) + Count(t[|t| - 1].1, cmd)
  }

  /** The triple `get_command_stats` reports. */
  datatype Report = Report(contexts: nat, transitions: nat, top: seq<Entry>)

  function CommandStats(t: Store): Report {
    Report(|t|, TotalTransitions(t), MostCommon(CommandTotals(t), 5))
  }

  lemma {:induction false} AddAllCount(acc: Counter, c: Counter, cmd: string)
    ensures Count(AddAll(acc, c), cmd) == Count(acc, cmd) + EntrySum(c, cmd)
  {
    if c != [] {
      AddAllCount(acc, c[..|c| - 1], cmd);
      CountIncrement(AddAll(acc, c[..|c| - 1]), c[|c| - 1].0, c[|c| - 1].1, cmd);
    }
  }

  /** In a Counter with distinct commands the entry sum is the count. */
  lemma {:induction false} EntrySumKeyed(c: Counter, cmd: string)
    requires Keyed(c)
    ensures EntrySum(c, cmd) == Count(c, cmd)
  {
    if c != [] {
      KeyedInit(c);
      EntrySumKeyed(c[..|c| - 1], cmd);
      EntrySumKeyedStep(c, cmd);
    }
  }

  lemma KeyedInit(c: Counter)
    requires Keyed(c) && c != []
    ensures Keyed(c[..|c| - 1])
  {
    var init := c[..|c| - 1];
    forall i, j | 0 <= i < j < |init| ensures init[i].0 != init[j].0 {
      assert init[i] == c[i] && init[j] == c[j];
    }
  }

  /** The step of `EntrySumKeyed`: the last entry adds its count to the
      command's own total and nothing to any other. */
  lemma EntrySumKeyedStep(c: Counter, cmd: string)
    requires Keyed(c) && c != []
    requires EntrySum(c[..|c| - 1], cmd) == Count(c[..|c| - 1], cmd)
    ensures EntrySum(c, cmd) == Count(c, cmd)
  {
    var init, e := c[..|c| - 1], c[|c| - 1];
    assert c == init + [e];
    GetSnoc(init, e, cmd);
    if e.0 == cmd {
      assert cmd !in KeyList(init) by {
        forall i | 0 <= i < |init| ensures KeyList(init)[i] != cmd {
          assert init[i] == c[i];
        }
      }
    }
  }

  lemma {:induction false} GetSnoc(d: Counter, e: Entry, k: string)
    ensures Get(d + [e], k) == if k in KeyList(d) then Get(d, k) else if e.0 == k then Some(e.1) else None
  {
    if d != [] {
      assert (d + [e])[1..] == d[1..] + [e];
      GetSnoc(d[1..], e, k);
    } else {
      assert d + [e] == [e];
    }
  }

  /** Each command's total is the sum of its counts over all contexts. */
  lemma {:induction false} CommandTotalsCount(t: Store, cmd: string)
    requires Valid(t)
    ensures Count(CommandTotals(t), cmd) == SumOverContexts(t, cmd)
  {
    if t != [] {
      var init := t[..|t| - 1];
      assert Valid(init) by {
        forall i, j | 0 <= i < j < |init| ensures init[i].0 != init[j].0 {
          assert init[i] == t[i] && init[j] == t[j];
        }
        forall i | 0 <= i < |init| ensures init[i] == t[i] { }
      }
      CommandTotalsCount(init, cmd);
      AddAllCount(CommandTotals(init), t[|t| - 1].1, cmd);
      EntrySumKeyed(t[|t| - 1].1, cmd);
    }
  }

  lemma {:induction false} CounterTotalAddAll(acc: Counter, c: Counter)
    ensures CounterTotal(AddAll(acc, c)) == CounterTotal(acc) + CounterTotalRev(c)
    decreases |c|
  {
    if c != [] {
      CounterTotalAddAll(acc, c[..|c| - 1]);
      CounterTotalIncrement(AddAll(acc, c[..|c| - 1]), c[|c| - 1].0, c[|c| - 1].1);
    }
  }

  /** The total of a Counter, summed from the back. */
  function CounterTotalRev(c: Counter): nat {
    if c == [] then 0 else CounterTotalRev(c[..|c| - 1]) + c[|c| - 1].1
  }

  lemma {:induction false} CounterTotalRevSame(c: Counter)
    ensures CounterTotalRev(c) == CounterTotal(c)
  {
    if c != [] {
      CounterTotalRevSame(c[1..]);
      if |c| > 1 {
        assert c[1..][..|c[1..]| - 1] == c[..|c| - 1][1..];
        CounterTotalRevSame(c[..|c| - 1]);
        CounterTotalRevSame(c[..|c| - 1][1..]);
        assert c[..|c| - 1][0] == c[0];
      }
    }
  }

  lemma {:induction false} StoreTotalSnoc(t: Store)
    requires t != []
    ensures StoreTotal(t) == StoreTotal(t[..|t| - 1]) + CounterTotal(t[|t| - 1].1)
  {
    if |t| > 1 {
      assert t[1..][..|t[1..]| - 1] == t[..|t| - 1][1..];
      StoreTotalSnoc(t[1..]);
      assert t[..|t| - 1][0] == t[0];
    }
  }

  /** Adding up the commands loses and invents nothing: the totals sum to
      the sum of every count in the table. */
  lemma {:induction false} CommandTotalsSum(t: Store)
    ensures CounterTotal(CommandTotals(t)) == StoreTotal(t)
  {
    if t != [] {
      CommandTotalsSum(t[..|t| - 1]);
      CounterTotalAddAll(CommandTotals(t[..|t| - 1]), t[|t| - 1].1);
      CounterTotalRevSame(t[|t| - 1].1);
      StoreTotalSnoc(t);
    }
  }

  lemma {:induction false} TransitionsBounds(t: Store)
    requires Valid(t)
    ensures |t| <= TotalTransitions(t) <= StoreTotal(t)
  {
    if t != [] {
      var init := t[..|t| - 1];
      assert Valid(init) by {
        forall i, j | 0 <= i < j < |init| ensures init[i].0 != init[j].0 {
          assert init[i] == t[i] && init[j] == t[j];
        }
        forall i | 0 <= i < |init| ensures init[i] == t[i] { }
      }
      TransitionsBounds(init);
      StoreTotalSnoc(t);
      var c := t[|t| - 1].1;
      CounterAtLeastSize(c);
    }
  }

  lemma {:induction false} CounterAtLeastSize(c: Counter)
    requires forall j :: 0 <= j < |c| ==> c[j].1 >= 1
    ensures |c| <= CounterTotal(c)
  {
    if c != [] {
      assert forall j :: 0 <= j < |c[1..]| ==> c[1..][j].1 >= 1 by {
        forall j | 0 <= j < |c[1..]| ensures c[1..][j].1 >= 1 {
          assert c[1..][j] == c[j + 1];
        }
      }
      CounterAtLeastSize(c[1..]);
    }
  }

  /** The report: the number of contexts, which is at most the number of
      transitions, which is at most the sum of all counts; and the top five
      commands (fewer only when fewer commands were seen), each with its count summed over all contexts, by
      non-increasing total, none left out with a larger total. */
  lemma CommandStatsSpec(t: Store)
    requires Valid(t)
    ensures var r := CommandStats(t);
      && r.contexts == |t|
      && r.contexts <= r.transitions <= StoreTotal(t)
      && |r.top| == (if 5 < |CommandTotals(t)| then 5 else |CommandTotals(t)|)
      && NonIncreasing(r.top)
      && (forall e :: e in r.top ==> e.1 == SumOverContexts(t, e.0))
      && (forall e, j :: e in CommandTotals(t) && e !in r.top && 0 <= j < |r.top| ==> e.1 <= r.top[j].1)
  {
    TransitionsBounds(t);
    var totals := CommandTotals(t);
    MostCommonSpec(totals, 5);
    CommandTotalsKeyed(t);
    forall e | e in CommandStats(t).top ensures e.1 == SumOverContexts(t, e.0) {
      MostCommonEntry(totals, 5, e);
      CommandTotalsCount(t, e.0);
    }
  }

  lemma {:induction false} AddAllKeyed(acc: Counter, c: Counter)
    requires Keyed(acc)
    ensures Keyed(AddAll(acc, c))
  {
    assert c[..0] == [];
    for i := 0 to |c|
      invariant Keyed(AddAll(acc, c[..i]))
    {
      AddAllSnoc(acc, c, i);
      IncrementKeyed(AddAll(acc, c[..i]), c[i].0, c[i].1);
    }
    assert c[..|c|] == c;
  }

  lemma AddAllSnoc(acc: Counter, c: Counter, i: nat)
    requires i < |c|
    ensures AddAll(acc, c[..i + 1]) == Increment(AddAll(acc, c[..i]), c[i].0, c[i].1)
  {
    assert c[..i + 1][..i] == c[..i];
  }

  lemma {:induction false} CommandTotalsKeyed(t: Store)
    ensures Keyed(CommandTotals(t))
  {
    if t != [] {
      CommandTotalsKeyed(t[..|t| - 1]);
      AddAllKeyed(CommandTotals(t[..|t| - 1]), t[|t| - 1].1);
    }
  }
}
