/** The transition table of `LocalWorldModel` and what training, prediction
    and statistics compute from it. A context is the one previous command or
    the two previous commands; the table maps each context seen so far to a
    Counter of the commands that followed it. */
module NGram {
  import opened OrderedDict
  import opened Counters

  type Context = seq<string>
  type Store = Dict<Context, Counter>

  /** `transitions[ctx]`, read without creating an entry: empty when the
      context was never seen. */
  function CounterOf(t: Store, ctx: Context): Counter {
    match Get(t, ctx)
    case None => []
    case Some(c) => c
  }

  function CountOf(t: Store, ctx: Context, cmd: string): nat {
    Count(CounterOf(t, ctx), cmd)
  }

  /** `transitions[ctx][cmd] += 1` on a `defaultdict(Counter)`. */
  function Bump(t: Store, ctx: Context, cmd: string): Store {
    Put(t, ctx, Increment(CounterOf(t, ctx), cmd, 1))
  }

  /** Bumping a context not yet in the table appends it with a count of 1
      for the command. */
  lemma BumpNew(t: Store, ctx: Context, cmd: string)
    requires ctx !in KeyList(t)
    ensures Bump(t, ctx, cmd) == t + [(ctx, [(cmd, 1)])]
  {
    assert CounterOf(t, ctx) == [];
    assert Increment([], cmd, 1) == [(cmd, 1)];
    PutNew(t, ctx, [(cmd, 1)]);
  }

  lemma CountBump(t: Store, ctx: Context, cmd: string, ctx': Context, cmd': string)
    ensures CountOf(Bump(t, ctx, cmd), ctx', cmd') ==
      CountOf(t, ctx', cmd') + (if ctx' == ctx && cmd' == cmd then 1 else 0)
  {
    GetPut(t, ctx, Increment(CounterOf(t, ctx), cmd, 1), ctx');
    CountIncrement(CounterOf(t, ctx), cmd, 1, cmd');
  }

  /** What a well-formed table looks like: each context of one or two
      commands appears once, and each Counter holds distinct commands with
      positive counts and at least one of them. */
  predicate Valid(t: Store) {
    && Keyed(t)
    && forall i :: 0 <= i < |t| ==>
      && 1 <= |t[i].0| <= 2
      && t[i].1 != []
      && Keyed(t[i].1)
      && forall j :: 0 <= j < |t[i].1| ==> t[i].1[j].1 >= 1
  }

  lemma IncrementPositive(c: Counter, cmd: string)
    requires Keyed(c) && forall j :: 0 <= j < |c| ==> c[j].1 >= 1
    ensures var c' := Increment(c, cmd, 1);
      Keyed(c') && c' != [] && forall j :: 0 <= j < |c'| ==> c'[j].1 >= 1
  {
    var n: nat := Count(c, cmd) + 1;
    PutKeyed(c, cmd, n);
    PutValues(c, cmd, n);
    var c' := Put(c, cmd, n);
    forall j | 0 <= j < |c'| ensures c'[j].1 >= 1 {
      assert c'[j] in c';
      if c'[j] != (cmd, n) {
        var m :| 0 <= m < |c| && c[m] == c'[j];
      }
    }
  }

  /** A Put leaves every entry as it was except the one for its key. */
  lemma {:induction false} PutValues<K, V>(d: Dict<K, V>, k: K, v: V)
    ensures Put(d, k, v) != []
    ensures forall e :: e in Put(d, k, v) ==> e in d || e == (k, v)
  {
    if d != [] && d[0].0 != k {
      PutValues(d[1..], k, v);
    }
  }

  lemma BumpValid(t: Store, ctx: Context, cmd: string)
    requires Valid(t) && 1 <= |ctx| <= 2
    ensures Valid(Bump(t, ctx, cmd))
  {
    var c := CounterOf(t, ctx);
    if Get(t, ctx).Some? {
      var i :| 0 <= i < |t| && t[i] == (ctx, c);
      assert Keyed(c) && forall j :: 0 <= j < |c| ==> c[j].1 >= 1;
    }
    var c' := Increment(c, cmd, 1);
    IncrementPositive(c, cmd);
    PutKeyed(t, ctx, c');
    PutValues(t, ctx, c');
    var t' := Put(t, ctx, c');
    forall i | 0 <= i < |t'|
      ensures 1 <= |t'[i].0| <= 2 && t'[i].1 != [] && Keyed(t'[i].1)
      ensures forall j :: 0 <= j < |t'[i].1| ==> t'[i].1[j].1 >= 1
    {
      assert t'[i] in t';
      if t'[i] != (ctx, c') {
        var m :| 0 <= m < |t| && t[m] == t'[i];
      }
    }
  }

  /** The two updates the trainer makes for position `i` of a session: the
      one-command context, then the two-command context. */
  function TrainStep(t: Store, s: seq<string>, i: nat): Store
    requires i < |s|
  {
    var t1 := if i >= 1 then Bump(t, [s[i - 1]], s[i]) else t;
    if i >= 2 then Bump(t1, [s[i - 2], s[i - 1]], s[i]) else t1
  }

  /** The table after the trainer has handled the first `n` positions. */
  function TrainPrefix(t: Store, s: seq<string>, n: nat): Store
    requires n <= |s|
  {
    if n == 0 then t else TrainStep(TrainPrefix(t, s, n - 1), s, n - 1)
  }

  /** `_train_on_session`. */
  function Train(t: Store, s: seq<string>): Store {
    TrainPrefix(t, s, |s|)
  }

  /** Training on each session in turn, as `load_and_train` does. */
  function TrainAll(t: Store, sessions: seq<seq<string>>): Store {
    if sessions == [] then t
    else Train(TrainAll(t, sessions[..|sessions| - 1]), sessions[|sessions| - 1])
  }

  /** Position `i` of `s` is an occurrence of `cmd` right after `ctx`. */
  predicate Follows(s: seq<string>, i: int, ctx: Context, cmd: string) {
    && |ctx| <= i < |s| && s[i] == cmd
    && (|| (|ctx| == 1 && s[i - 1] == ctx[0])
        || (|ctx| == 2 && s[i - 2] == ctx[0] && s[i - 1] == ctx[1]))
  }

  /** How many of the first `n` positions of `s` are such occurrences. */
  function Occurrences(s: seq<string>, n: nat, ctx: Context, cmd: string): nat
    requires n <= |s|
  {
    if n == 0 then 0
    else Occurrences(s, n - 1, ctx, cmd) + Indicator(Follows(s, n - 1, ctx, cmd))
  }

  lemma FollowsAt(s: seq<string>, i: nat, ctx: Context, cmd: string)
    requires i < |s|
    ensures Follows(s, i, ctx, cmd) <==>
      || (i >= 1 && ctx == [s[i - 1]] && cmd == s[i])
      || (i >= 2 && ctx == [s[i - 2], s[i - 1]] && cmd == s[i])
  {
    if |ctx| == 1 {
      assert ctx == [ctx[0]];
    } else if |ctx| == 2 {
      assert ctx == [ctx[0], ctx[1]];
    }
  }

  lemma StepCounts(t: Store, s: seq<string>, i: nat, ctx: Context, cmd: string)
    requires i < |s|
    ensures CountOf(TrainStep(t, s, i), ctx, cmd) == CountOf(t, ctx, cmd) + Indicator(Follows(s, i, ctx, cmd))
  {
    FollowsAt(s, i, ctx, cmd);
    if i >= 1 {
      var t1 := Bump(t, [s[i - 1]], s[i]);
      CountBump(t, [s[i - 1]], s[i], ctx, cmd);
      if i >= 2 {
        CountBump(t1, [s[i - 2], s[i - 1]], s[i], ctx, cmd);
      }
    }
  }

  /** The inductive step of `PrefixCounts`: position `i` adds its one
      occurrence, if it is one, to what the first `i` positions gave. */
  lemma PrefixCountStep(t: Store, s: seq<string>, i: nat, ctx: Context, cmd: string)
    requires i < |s|
    ensures CountOf(TrainPrefix(t, s, i + 1), ctx, cmd) ==
      CountOf(TrainPrefix(t, s, i), ctx, cmd) + Indicator(Follows(s, i, ctx, cmd))
  {
    var before := TrainPrefix(t, s, i);
    assert TrainPrefix(t, s, i + 1) == TrainStep(before, s, i);
    StepCounts(before, s, i, ctx, cmd);
  }

  lemma OccurrencesStep(s: seq<string>, i: nat, ctx: Context, cmd: string)
    requires i < |s|
    ensures Occurrences(s, i + 1, ctx, cmd) == Occurrences(s, i, ctx, cmd) + Indicator(Follows(s, i, ctx, cmd))
  {
  }

  lemma PrefixCounts(t: Store, s: seq<string>, n: nat, ctx: Context, cmd: string)
    requires n <= |s|
    ensures CountOf(TrainPrefix(t, s, n), ctx, cmd) == CountOf(t, ctx, cmd) + Occurrences(s, n, ctx, cmd)
  {
    for i := 0 to n
      invariant CountOf(TrainPrefix(t, s, i), ctx, cmd) == CountOf(t, ctx, cmd) + Occurrences(s, i, ctx, cmd)
    {
      PrefixCountStep(t, s, i, ctx, cmd);
      OccurrencesStep(s, i, ctx, cmd);
    }
  }

  /** Training on a session adds to each count exactly the number of times
      that command follows that context in the session, and changes no other
      count: nothing decreases, and contexts not of one or two commands stay
      at zero. */
  lemma TrainCounts(t: Store, s: seq<string>, ctx: Context, cmd: string)
    ensures CountOf(Train(t, s), ctx, cmd) == CountOf(t, ctx, cmd) + Occurrences(s, |s|, ctx, cmd)
  {
    PrefixCounts(t, s, |s|, ctx, cmd);
  }

  lemma {:induction false} PrefixValid(t: Store, s: seq<string>, n: nat)
    requires Valid(t) && n <= |s|
    ensures Valid(TrainPrefix(t, s, n))
  {
    if n > 0 {
      PrefixValid(t, s, n - 1);
      StepValid(TrainPrefix(t, s, n - 1), s, n - 1);
    }
  }

  lemma StepValid(t: Store, s: seq<string>, i: nat)
    requires Valid(t) && i < |s|
    ensures Valid(TrainStep(t, s, i))
  {
    if i >= 1 {
      BumpValid(t, [s[i - 1]], s[i]);
      if i >= 2 {
        BumpValid(Bump(t, [s[i - 1]], s[i]), [s[i - 2], s[i - 1]], s[i]);
      }
    }
  }

  /** Training keeps the table well formed. */
  lemma TrainValid(t: Store, s: seq<string>)
    requires Valid(t)
    ensures Valid(Train(t, s))
  {
    PrefixValid(t, s, |s|);
  }

  /** Training on one more session continues from the table the earlier
      sessions left. */
  lemma TrainAllSnoc(t: Store, sessions: seq<seq<string>>, j: nat)
    requires j < |sessions|
    ensures TrainAll(t, sessions[..j + 1]) == Train(TrainAll(t, sessions[..j]), sessions[j])
  {
    assert sessions[..j + 1][..j] == sessions[..j];
  }

  lemma {:induction false} TrainAllValid(t: Store, sessions: seq<seq<string>>)
    requires Valid(t)
    ensures Valid(TrainAll(t, sessions))
  {
    if sessions != [] {
      TrainAllValid(t, sessions[..|sessions| - 1]);
      TrainValid(TrainAll(t, sessions[..|sessions| - 1]), sessions[|sessions| - 1]);
    }
  }

  // ---------------------------------------------------------------- totals

  function CounterTotal(c: Counter): nat {
    if c == [] then 0 else c[0].1 + CounterTotal(c[1..])
  }

  /** The sum of every count in the table. */
  function StoreTotal(t: Store): nat {
    if t == [] then 0 else CounterTotal(t[0].1) + StoreTotal(t[1..])
  }

  function ValueOr<V>(o: Option<V>, v: V): V {
    match o case None => v case Some(x) => x
  }

  lemma {:induction false} CounterTotalPut(c: Counter, k: string, n: nat)
    ensures CounterTotal(Put(c, k, n)) + Count(c, k) == CounterTotal(c) + n
  {
    if c != [] && c[0].0 != k {
      CounterTotalPut(c[1..], k, n);
    }
  }

  lemma {:induction false} StoreTotalPut(t: Store, ctx: Context, c: Counter)
    ensures StoreTotal(Put(t, ctx, c)) + CounterTotal(CounterOf(t, ctx)) == StoreTotal(t) + CounterTotal(c)
  {
    if t != [] && t[0].0 != ctx {
      StoreTotalPut(t[1..], ctx, c);
    }
  }

  lemma CounterTotalIncrement(c: Counter, cmd: string, amount: nat)
    ensures CounterTotal(Increment(c, cmd, amount)) == CounterTotal(c) + amount
  {
    var n: nat := Count(c, cmd) + amount;
    calc {
      CounterTotal(Increment(c, cmd, amount));
      { IncrementIsPut(c, cmd, amount); }
      CounterTotal(Put(c, cmd, n));
      { CounterTotalPut(c, cmd, n); }
      CounterTotal(c) + n - Count(c, cmd);
    }
  }

  lemma BumpTotal(t: Store, ctx: Context, cmd: string)
    ensures StoreTotal(Bump(t, ctx, cmd)) == StoreTotal(t) + 1
  {
    var c := CounterOf(t, ctx);
    var c' := Increment(c, cmd, 1);
    CounterTotalIncrement(c, cmd, 1);
    StoreTotalPut(t, ctx, c');
  }

  lemma {:induction false} PrefixTotal(t: Store, s: seq<string>, n: nat)
    requires n <= |s|
    ensures StoreTotal(TrainPrefix(t, s, n)) == StoreTotal(t) + (if n > 1 then n - 1 else 0) + (if n > 2 then n - 2 else 0)
  {
    if n > 0 {
      PrefixTotal(t, s, n - 1);
      var t0 := TrainPrefix(t, s, n - 1);
      var i := n - 1;
      var t1 := if i >= 1 then Bump(t0, [s[i - 1]], s[i]) else t0;
      if i >= 1 { BumpTotal(t0, [s[i - 1]], s[i]); }
      if i >= 2 { BumpTotal(t1, [s[i - 2], s[i - 1]], s[i]); }
    }
  }

  /** A session of `n` commands adds `n - 1` one-command transitions and
      `n - 2` two-command transitions. */
  lemma TrainTotal(t: Store, s: seq<string>)
    ensures StoreTotal(Train(t, s)) ==
      StoreTotal(t) + (if |s| > 1 then |s| - 1 else 0) + (if |s| > 2 then |s| - 2 else 0)
  {
    PrefixTotal(t, s, |s|);
  }

  function Indicator(b: bool): nat {
    if b then 1 else 0
  }

  lemma OccurrencesOfFour(s: seq<string>, ctx: Context, cmd: string)
    requires |s| == 4
    ensures Occurrences(s, 4, ctx, cmd) ==
      Indicator(Follows(s, 1, ctx, cmd)) + Indicator(Follows(s, 2, ctx, cmd)) + Indicator(Follows(s, 3, ctx, cmd))
  {
    assert Occurrences(s, 1, ctx, cmd) == 0;
    assert Occurrences(s, 2, ctx, cmd) == Indicator(Follows(s, 1, ctx, cmd));
    assert Occurrences(s, 3, ctx, cmd) == Indicator(Follows(s, 1, ctx, cmd)) + Indicator(Follows(s, 2, ctx, cmd));
  }

  /** The session `git`, `add`, `git commit`, `git push` teaches, among
      others, that `git commit` follows `add` and follows `git`, `add`, and
      never follows `git` alone. */
  lemma GitExample(s: seq<string>, t: Store)
    requires s == ["git", "add", "git commit", "git push"]
    requires t == Train([], s)
    ensures CountOf(t, ["add"], "git commit") == 1
    ensures CountOf(t, ["git", "add"], "git commit") == 1
    ensures CountOf(t, ["git"], "git commit") == 0
  {
    var g, a, gc := "git", "add", "git commit";
    assert g != a && g != gc && a != gc && s[3] != gc;
    TrainCounts([], s, [a], gc);
    TrainCounts([], s, [g, a], gc);
    TrainCounts([], s, [g], gc);
    OccurrencesOfFour(s, [a], gc);
    OccurrencesOfFour(s, [g, a], gc);
    OccurrencesOfFour(s, [g], gc);
    FollowsAt(s, 1, [a], gc);
    FollowsAt(s, 2, [a], gc);
    FollowsAt(s, 3, [a], gc);
    FollowsAt(s, 1, [g, a], gc);
    FollowsAt(s, 2, [g, a], gc);
    FollowsAt(s, 3, [g, a], gc);
    FollowsAt(s, 1, [g], gc);
    FollowsAt(s, 2, [g], gc);
    FollowsAt(s, 3, [g], gc);
  }
}
