/** What `predict_next` and `_fuzzy_predict` return for a table: the
    two-command context's most common successors, topped up from the
    one-command context, and, in src/nxcmd/model.py only, a fuzzy fallback
    over every context that mentions one of the query's commands. */
module Predict {
  import opened OrderedDict
  import opened Counters
  import opened PyStr
  import opened NGram

  /** `tuple(previous_commands[-2:])`. */
  function TwoContext(prev: seq<string>): Context
    requires |prev| >= 2
  {
    prev[|prev| - 2..]
  }

  /** `(previous_commands[-1],)`. */
  function OneContext(prev: seq<string>): Context
    requires |prev| >= 1
  {
    [prev[|prev| - 1]]
  }

  /** The entries the two-command context contributes. */
  function TwoGram(t: Store, prev: seq<string>, k: nat): seq<Entry> {
    if |prev| >= 2 && HasKey(t, TwoContext(prev)) then MostCommon(CounterOf(t, TwoContext(prev)), k) else []
  }

  /** The entries the one-command context adds once `found` are collected. */
  function OneGram(t: Store, prev: seq<string>, k: nat, found: nat): seq<Entry> {
    if |prev| >= 1 && found < k && HasKey(t, OneContext(prev)) then MostCommon(CounterOf(t, OneContext(prev)), k - found) else []
  }

  /** The exact lookups of both versions of `predict_next`. */
  function Exact(t: Store, prev: seq<string>, k: nat): seq<Entry> {
    var two := TwoGram(t, prev, k);
    two + OneGram(t, prev, k, |two|)
  }

  /** `predict_next` of src/nxcmd/model.py. */
  function PredictNext(t: Store, prev: seq<string>, k: nat): seq<Entry> {
    if prev == [] then []
    else
      var exact := Exact(t, prev, k);
      Take(if exact == [] then Fuzzy(t, prev, k) else exact, k)
  }

  // ----------------------------------------------------------------- fuzzy

  /** `any(cmd in hay for cmd in query if len(cmd) > 2)`. */
  predicate Mentions(query: seq<string>, hay: string) {
    query != [] && ((|query[0]| > 2 && Contains(hay, query[0])) || Mentions(query[1..], hay))
  }

  /** The context is relevant to the query: its space-joined text mentions
      one of the query's commands. */
  predicate Relevant(ctx: Context, query: seq<string>) {
    Mentions(query, Join(ctx))
  }

  /** `all_predictions`: the top three of every relevant context, in table
      order. */
  function Candidates(t: Store, query: seq<string>): seq<Entry> {
    if t == [] then []
    else
      Candidates(t[..|t| - 1], query) +
        (if Relevant(t[|t| - 1].0, query) then MostCommon(t[|t| - 1].1, 3) else [])
  }

  lemma CandidatesSnoc(t: Store, i: nat, query: seq<string>)
    requires i < |t|
    ensures Candidates(t[..i + 1], query) ==
      Candidates(t[..i], query) + (if Relevant(t[i].0, query) then MostCommon(t[i].1, 3) else [])
  {
    assert t[..i + 1][..i] == t[..i];
  }

  /** `unique_predictions`: each command once, with the largest count seen
      for it, at the place it was first seen. */
  function MaxMerge(es: seq<Entry>): Counter {
    if es == [] then []
    else
      var d := MaxMerge(es[..|es| - 1]);
      var e := es[|es| - 1];
      var n: nat := e.1;
      if !HasKey(d, e.0) || n > Count(d, e.0) then Put(d, e.0, n) else d
  }

  /** `_fuzzy_predict`. */
  function Fuzzy(t: Store, query: seq<string>, k: nat): seq<Entry> {
    MostCommon(MaxMerge(Candidates(t, query)), k)
  }

  // ------------------------------------------------------- exact lookups

  /** The two-command entries: a present context contributes the top
      min(`top_k`, its size) of its Counter, an absent one nothing. */
  lemma TwoGramSpec(t: Store, prev: seq<string>, k: nat)
    ensures var two := TwoGram(t, prev, k);
      && |two| <= k
      && NonIncreasing(two)
      && (two != [] ==> |prev| >= 2 && HasKey(t, TwoContext(prev)))
      && (|prev| >= 2 && HasKey(t, TwoContext(prev)) ==>
            var c := CounterOf(t, TwoContext(prev));
            two == MostCommon(c, k) && |two| == (if k < |c| then k else |c|))
  {
    if |prev| >= 2 && HasKey(t, TwoContext(prev)) {
      MostCommonShape(CounterOf(t, TwoContext(prev)), k);
    }
  }

  /** The one-command top-up: while fewer than `top_k` were found, a
      present context adds the top min(`top_k` - found, its size) of its
      Counter; otherwise nothing is added. */
  lemma OneGramSpec(t: Store, prev: seq<string>, k: nat, found: nat)
    ensures var one := OneGram(t, prev, k, found);
      && (one != [] ==> found + |one| <= k)
      && NonIncreasing(one)
      && (one != [] ==> found < k && |prev| >= 1 && HasKey(t, OneContext(prev)))
      && (|prev| >= 1 && found < k && HasKey(t, OneContext(prev)) ==>
            var c := CounterOf(t, OneContext(prev));
            one == MostCommon(c, k - found) && |one| == (if k - found < |c| then k - found else |c|))
  {
    if |prev| >= 1 && found < k && HasKey(t, OneContext(prev)) {
      var remaining: nat := k - found;
      var c := CounterOf(t, OneContext(prev));
      MostCommonShape(c, remaining);
      var one := MostCommon(c, remaining);
      assert OneGram(t, prev, k, found) == one;
      assert |one| <= remaining;
    } else {
      assert OneGram(t, prev, k, found) == [];
    }
  }

  lemma ExactLength(t: Store, prev: seq<string>, k: nat)
    ensures |Exact(t, prev, k)| <= k
  {
    var two := TwoGram(t, prev, k);
    TwoGramSpec(t, prev, k);
    OneGramSpec(t, prev, k, |two|);
  }

  /** The result is never longer than `top_k`; the two-command entries come
      first, in non-increasing count order, and are the top of that
      context's Counter whenever that context is present; when fewer than
      `top_k` were found and the one-command context is present, its top
      entries follow, and otherwise nothing follows. */
  lemma ExactShape(t: Store, prev: seq<string>, k: nat)
    ensures var two, r := TwoGram(t, prev, k), Exact(t, prev, k);
      && |r| <= k
      && r[..|two|] == two
      && NonIncreasing(two)
      && NonIncreasing(r[|two|..])
      && (two != [] ==> |prev| >= 2 && two == MostCommon(CounterOf(t, TwoContext(prev)), k))
      && (|prev| >= 2 && HasKey(t, TwoContext(prev)) ==> two == MostCommon(CounterOf(t, TwoContext(prev)), k))
      && (|r| > |two| ==> |two| < k && r[|two|..] == MostCommon(CounterOf(t, OneContext(prev)), k - |two|))
      && (|prev| >= 1 && |two| < k && HasKey(t, OneContext(prev)) ==>
            r[|two|..] == MostCommon(CounterOf(t, OneContext(prev)), k - |two|))
      && (!(|prev| >= 1 && |two| < k && HasKey(t, OneContext(prev))) ==> r == two)
  {
    var two := TwoGram(t, prev, k);
    var one := OneGram(t, prev, k, |two|);
    TwoGramSpec(t, prev, k);
    OneGramSpec(t, prev, k, |two|);
    var r := two + one;
    assert r[..|two|] == two && r[|two|..] == one;
  }

  /** In a valid table the top-up really happens: when fewer than `top_k`
      two-command entries were found and the one-command context is
      present, the result is longer than the two-command entries. */
  lemma ExactTopsUp(t: Store, prev: seq<string>, k: nat)
    requires Valid(t) && |prev| >= 1 && HasKey(t, OneContext(prev))
    requires |TwoGram(t, prev, k)| < k
    ensures |Exact(t, prev, k)| > |TwoGram(t, prev, k)|
  {
    var two := TwoGram(t, prev, k);
    PresentNonEmpty(t, OneContext(prev));
    MostCommonShape(CounterOf(t, OneContext(prev)), k - |two|);
  }

  /** A two-command context with one successor, topped up with the
      one-command context's successor. */
  lemma ExactTopUpExample(t: Store)
    requires t == [(["a", "b"], [("c", 1)]), (["b"], [("d", 1)])]
    ensures Exact(t, ["a", "b"], 3) == [("c", 1), ("d", 1)]
  {
    var prev := ["a", "b"];
    assert "a" != "b";
    assert TwoContext(prev) == ["a", "b"] && OneContext(prev) == ["b"];
    assert Get(t, ["a", "b"]) == Some([("c", 1)]);
    assert Get(t, ["b"]) == Some([("d", 1)]);
    assert MostCommon([("c", 1)], 3) == [("c", 1)];
    assert MostCommon([("d", 1)], 2) == [("d", 1)];
    assert TwoGram(t, prev, 3) == [("c", 1)];
    assert OneGram(t, prev, 3, 1) == [("d", 1)];
  }

  /** Every entry of the exact lookups is an entry of the table: a command
      that followed the two-command or the one-command context, with its
      count there. */
  lemma ExactEntries(t: Store, prev: seq<string>, k: nat)
    requires Valid(t)
    ensures forall e :: e in Exact(t, prev, k) ==>
      || (|prev| >= 2 && e.1 == CountOf(t, TwoContext(prev), e.0) >= 1)
      || (|prev| >= 1 && e.1 == CountOf(t, OneContext(prev), e.0) >= 1)
  {
    var two := TwoGram(t, prev, k);
    forall e | e in Exact(t, prev, k)
      ensures || (|prev| >= 2 && e.1 == CountOf(t, TwoContext(prev), e.0) >= 1)
              || (|prev| >= 1 && e.1 == CountOf(t, OneContext(prev), e.0) >= 1)
    {
      if e in two {
        EntryOfCounter(t, TwoContext(prev), k, e);
      } else {
        EntryOfCounter(t, OneContext(prev), k - |two|, e);
      }
    }
  }

  lemma EntryOfCounter(t: Store, ctx: Context, n: nat, e: Entry)
    requires Valid(t) && HasKey(t, ctx)
    requires e in MostCommon(CounterOf(t, ctx), n)
    ensures e.1 == CountOf(t, ctx, e.0) >= 1
  {
    var c := CounterOf(t, ctx);
    var i :| 0 <= i < |t| && t[i] == (ctx, c);
    MostCommonEntry(c, n, e);
    MostCommonMembers(c, n);
    var j :| 0 <= j < |c| && c[j] == e;
  }

  /** When the two-command context alone fills `top_k`, the one-command
      context is not consulted. */
  lemma ExactTwoSuffices(t: Store, prev: seq<string>, k: nat)
    requires |prev| >= 2 && HasKey(t, TwoContext(prev))
    requires |CounterOf(t, TwoContext(prev))| >= k
    ensures Exact(t, prev, k) == MostCommon(CounterOf(t, TwoContext(prev)), k)
  {
    MostCommonShape(CounterOf(t, TwoContext(prev)), k);
  }

  /** A context present in a valid table has a non-empty Counter. */
  lemma PresentNonEmpty(t: Store, ctx: Context)
    requires Valid(t) && HasKey(t, ctx)
    ensures |CounterOf(t, ctx)| >= 1
  {
    var i :| 0 <= i < |t| && t[i] == (ctx, CounterOf(t, ctx));
  }

  /** In a valid table, for a positive `top_k`, the exact lookups find
      nothing exactly when neither the two-command nor the one-command
      context has been seen. */
  lemma ExactEmptyIff(t: Store, prev: seq<string>, k: nat)
    requires Valid(t) && k > 0
    ensures Exact(t, prev, k) == [] <==>
      !(|prev| >= 2 && HasKey(t, TwoContext(prev))) && !(|prev| >= 1 && HasKey(t, OneContext(prev)))
  {
    if |prev| >= 2 && HasKey(t, TwoContext(prev)) {
      PresentNonEmpty(t, TwoContext(prev));
      MostCommonShape(CounterOf(t, TwoContext(prev)), k);
    } else if |prev| >= 1 && HasKey(t, OneContext(prev)) {
      PresentNonEmpty(t, OneContext(prev));
      MostCommonShape(CounterOf(t, OneContext(prev)), k);
    }
  }

  // ------------------------------------------------------------ predict

  /** An empty context predicts nothing. */
  lemma PredictEmptyContext(t: Store, k: nat)
    ensures PredictNext(t, [], k) == []
  {
  }

  /** At most `top_k` predictions; the exact lookups win whenever they find
      anything, and the fuzzy fallback is used exactly when they find
      nothing. */
  lemma PredictSpec(t: Store, prev: seq<string>, k: nat)
    requires prev != []
    ensures |PredictNext(t, prev, k)| <= k
    ensures Exact(t, prev, k) != [] ==> PredictNext(t, prev, k) == Exact(t, prev, k)
    ensures Exact(t, prev, k) == [] ==> PredictNext(t, prev, k) == Fuzzy(t, prev, k)
  {
    var exact, fuzzy := Exact(t, prev, k), Fuzzy(t, prev, k);
    ExactLength(t, prev, k);
    MostCommonShape(MaxMerge(Candidates(t, prev)), k);
    assert PredictNext(t, prev, k) == Take(if exact == [] then fuzzy else exact, k);
  }

  /** The table the documented session `git`, `add`, `git commit`,
      `git push` trains from nothing: five contexts, each seen once. */
  lemma GitTable()
    ensures Train([], ["git", "add", "git commit", "git push"]) ==
      [(["git"], [("add", 1)]), (["add"], [("git commit", 1)]), (["git", "add"], [("git commit", 1)]),
       (["git commit"], [("git push", 1)]), (["add", "git commit"], [("git push", 1)])]
  {
    var g, a, gc, gp := "git", "add", "git commit", "git push";
    var s := [g, a, gc, gp];
    assert g != a && g != gc && a != gc && gc != gp;
    var t1 := [([g], [(a, 1)])];
    var t2 := t1 + [([a], [(gc, 1)])];
    var t3 := t2 + [([g, a], [(gc, 1)])];
    var t4 := t3 + [([gc], [(gp, 1)])];
    var t5 := t4 + [([a, gc], [(gp, 1)])];
    assert TrainPrefix([], s, 1) == [];
    BumpNew([], [g], a);
    assert TrainPrefix([], s, 2) == t1;
    GitSecondStep(t1, s);
    assert TrainPrefix([], s, 3) == t3;
    GitThirdStep(t3, s);
  }

  lemma GitSecondStep(t1: Store, s: seq<string>)
    requires s == ["git", "add", "git commit", "git push"] && t1 == [(["git"], [("add", 1)])]
    ensures TrainStep(t1, s, 2) == t1 + [(["add"], [("git commit", 1)]), (["git", "add"], [("git commit", 1)])]
  {
    var g, a, gc := "git", "add", "git commit";
    assert g != a;
    BumpNew(t1, [a], gc);
    BumpNew(t1 + [([a], [(gc, 1)])], [g, a], gc);
  }

  lemma GitThirdStep(t3: Store, s: seq<string>)
    requires s == ["git", "add", "git commit", "git push"]
    requires t3 == [(["git"], [("add", 1)]), (["add"], [("git commit", 1)]), (["git", "add"], [("git commit", 1)])]
    ensures TrainStep(t3, s, 3) == t3 + [(["git commit"], [("git push", 1)]), (["add", "git commit"], [("git push", 1)])]
  {
    var g, a, gc, gp := "git", "add", "git commit", "git push";
    assert g != gc && a != gc;
    BumpNew(t3, [gc], gp);
    BumpNew(t3 + [([gc], [(gp, 1)])], [a, gc], gp);
  }

  /** The documented example: after that session, `add` predicts
      `git commit` once, and nothing else. */
  lemma GitPrediction()
    ensures PredictNext(Train([], ["git", "add", "git commit", "git push"]), ["add"], 3) == [("git commit", 1)]
  {
    GitTable();
    GitTablePrediction(Train([], ["git", "add", "git commit", "git push"]));
  }

  lemma GitTablePrediction(t: Store)
    requires t == [(["git"], [("add", 1)]), (["add"], [("git commit", 1)]), (["git", "add"], [("git commit", 1)]),
      (["git commit"], [("git push", 1)]), (["add", "git commit"], [("git push", 1)])]
    ensures PredictNext(t, ["add"], 3) == [("git commit", 1)]
  {
    var prev, c := ["add"], [("git commit", 1)];
    assert "add" != "git";
    assert OneContext(prev) == ["add"];
    assert Get(t, ["add"]) == Some(c);
    assert HasKey(t, ["add"]);
    assert TwoGram(t, prev, 3) == [];
    assert MostCommon(c, 3) == c;
    assert OneGram(t, prev, 3, 0) == c;
    assert Exact(t, prev, 3) == c;
  }

  /** An empty table predicts nothing at all. */
  lemma PredictEmptyStore(prev: seq<string>, k: nat)
    ensures PredictNext([], prev, k) == []
  {
    assert Candidates([], prev) == [];
  }

  // -------------------------------------------------------------- fuzzy

  /** Every candidate comes from a relevant context's Counter, and all top
      three of every relevant context are candidates. */
  lemma {:induction false} CandidatesSpec(t: Store, query: seq<string>)
    ensures forall e :: e in Candidates(t, query) ==>
      exists i :: 0 <= i < |t| && Relevant(t[i].0, query) && e in MostCommon(t[i].1, 3)
    ensures forall i, e :: 0 <= i < |t| && Relevant(t[i].0, query) && e in MostCommon(t[i].1, 3) ==>
      e in Candidates(t, query)
  {
    if t != [] {
      var init := t[..|t| - 1];
      CandidatesSpec(init, query);
      forall e | e in Candidates(t, query)
        ensures exists i :: 0 <= i < |t| && Relevant(t[i].0, query) && e in MostCommon(t[i].1, 3)
      {
        if e in Candidates(init, query) {
          var i :| 0 <= i < |init| && Relevant(init[i].0, query) && e in MostCommon(init[i].1, 3);
          assert t[i] == init[i];
        } else {
          assert t[|t| - 1].0 == t[|t| - 1].0;
        }
      }
      forall i, e | 0 <= i < |t| && Relevant(t[i].0, query) && e in MostCommon(t[i].1, 3)
        ensures e in Candidates(t, query)
      {
        if i < |init| {
          assert t[i] == init[i];
        }
      }
    }
  }

  lemma MaxMergeSnoc(es: seq<Entry>, e: Entry)
    ensures MaxMerge(es + [e]) ==
      var d := MaxMerge(es);
      var n: nat := e.1;
      if !HasKey(d, e.0) || n > Count(d, e.0) then Put(d, e.0, n) else d
  {
    assert (es + [e])[..|es|] == es;
  }

  lemma {:induction false} MaxMergeKeyed(es: seq<Entry>)
    ensures Keyed(MaxMerge(es))
  {
    if es != [] {
      var init, e := es[..|es| - 1], es[|es| - 1];
      assert es == init + [e];
      MaxMergeSnoc(init, e);
      MaxMergeKeyed(init);
      var n: nat := e.1;
      PutKeyed(MaxMerge(init), e.0, n);
    }
  }

  lemma {:induction false} MaxMergeFrom(es: seq<Entry>)
    ensures forall x :: x in MaxMerge(es) ==> x in es
  {
    if es != [] {
      var init, e := es[..|es| - 1], es[|es| - 1];
      assert es == init + [e];
      MaxMergeSnoc(init, e);
      MaxMergeFrom(init);
      var n: nat := e.1;
      PutValues(MaxMerge(init), e.0, n);
    }
  }

  lemma {:induction false} MaxMergeCovers(es: seq<Entry>)
    ensures forall x :: x in es ==> HasKey(MaxMerge(es), x.0) && x.1 <= Count(MaxMerge(es), x.0)
  {
    if es != [] {
      var init, e := es[..|es| - 1], es[|es| - 1];
      assert es == init + [e];
      MaxMergeSnoc(init, e);
      MaxMergeCovers(init);
      var d := MaxMerge(init);
      var n: nat := e.1;
      if !HasKey(d, e.0) || n > Count(d, e.0) {
        KeyListPut(d, e.0, n);
        forall x | x in es ensures HasKey(MaxMerge(es), x.0) && x.1 <= Count(MaxMerge(es), x.0) {
          GetPut(d, e.0, n, x.0);
        }
      }
    }
  }

  /** `unique_predictions` holds each candidate command once, with the
      largest count any candidate gives it. */
  lemma MaxMergeSpec(es: seq<Entry>)
    ensures Keyed(MaxMerge(es))
    ensures forall e :: e in es ==> HasKey(MaxMerge(es), e.0) && e.1 <= Count(MaxMerge(es), e.0)
    ensures forall e :: e in MaxMerge(es) ==> e in es
  {
    MaxMergeKeyed(es);
    MaxMergeCovers(es);
    MaxMergeFrom(es);
  }

  lemma FuzzyFromMerge(d: Counter, k: nat)
    requires Keyed(d)
    ensures var r := MostCommon(d, k);
      && |r| == (if k < |d| then k else |d|) && NonIncreasing(r) && Keyed(r)
      && (forall e :: e in r ==> e in d)
      && (forall x, j :: x in d && x.0 !in KeyList(r) && 0 <= j < |r| ==> x.1 <= r[j].1)
  {
    var r := MostCommon(d, k);
    MostCommonSpec(d, k);
    SubKeyed(d, r);
    forall e | e in r ensures e in d {
      assert e in multiset(r);
    }
  }

  /** The fuzzy result: min(`top_k`, number of distinct candidate commands)
      entries, each command once, by
      non-increasing count; each entry is a candidate carrying the largest
      count seen for its command; and no command left out was seen with a
      larger count than an entry returned. */
  lemma FuzzySpec(t: Store, query: seq<string>, k: nat)
    ensures var cs, r := Candidates(t, query), Fuzzy(t, query, k);
      && |r| == (if k < |MaxMerge(cs)| then k else |MaxMerge(cs)|)
      && NonIncreasing(r)
      && Keyed(r)
      && (forall e :: e in r ==> e in cs)
      && (forall e, x :: e in r && x in cs && x.0 == e.0 ==> x.1 <= e.1)
      && (forall x, j :: x in cs && x.0 !in KeyList(r) && 0 <= j < |r| ==> x.1 <= r[j].1)
  {
    var cs := Candidates(t, query);
    var d := MaxMerge(cs);
    var r := Fuzzy(t, query, k);
    MaxMergeSpec(cs);
    FuzzyFromMerge(d, k);
    forall e, x | e in r && x in cs && x.0 == e.0 ensures x.1 <= e.1 {
      var i :| 0 <= i < |d| && d[i] == e;
      KeyedGet(d, i);
    }
    forall x, j | x in cs && x.0 !in KeyList(r) && 0 <= j < |r| ensures x.1 <= r[j].1 {
      var n := Count(d, x.0);
      assert (x.0, n) in d;
    }
  }

  /** An entry sequence drawn without repetition from a keyed dict is keyed. */
  lemma SubKeyed(d: Counter, r: seq<Entry>)
    requires Keyed(d)
    requires multiset(r) <= multiset(d)
    ensures Keyed(r)
  {
    forall i, j | 0 <= i < j < |r| ensures r[i].0 != r[j].0 {
      assert r[i] in multiset(d) && r[j] in multiset(d);
      var a :| 0 <= a < |d| && d[a] == r[i];
      var b :| 0 <= b < |d| && d[b] == r[j];
      if r[i] == r[j] {
        assert multiset(r)[r[i]] >= 2 by {
          assert r == r[..i] + [r[i]] + r[i + 1..j] + [r[j]] + r[j + 1..];
        }
        KeyedOnce(d, a);
      }
    }
  }

  lemma {:induction false} KeyedOnce(d: Counter, a: nat)
    requires Keyed(d) && a < |d|
    ensures multiset(d)[d[a]] == 1
  {
    if a == 0 {
      assert d == [d[0]] + d[1..];
      assert d[0] !in d[1..] by {
        forall m | 0 <= m < |d[1..]| ensures d[1..][m] != d[0] {
          assert d[1..][m] == d[m + 1];
        }
      }
    } else {
      assert d == [d[0]] + d[1..];
      assert d[1..][a - 1] == d[a];
      assert Keyed(d[1..]) by {
        forall i, j | 0 <= i < j < |d[1..]| ensures d[1..][i].0 != d[1..][j].0 {
          assert d[1..][i] == d[i + 1] && d[1..][j] == d[j + 1];
        }
      }
      KeyedOnce(d[1..], a - 1);
    }
  }

  /** No query command longer than two characters, no fuzzy prediction. */
  lemma FuzzyShortQuery(t: Store, query: seq<string>, k: nat)
    requires forall j :: 0 <= j < |query| ==> |query[j]| <= 2
    ensures Fuzzy(t, query, k) == []
  {
    ShortQueryIrrelevant(t, query);
  }

  lemma {:induction false} ShortQueryMentions(query: seq<string>, hay: string)
    requires forall j :: 0 <= j < |query| ==> |query[j]| <= 2
    ensures !Mentions(query, hay)
  {
    if query != [] {
      assert forall j :: 0 <= j < |query[1..]| ==> |query[1..][j]| <= 2 by {
        forall j | 0 <= j < |query[1..]| ensures |query[1..][j]| <= 2 {
          assert query[1..][j] == query[j + 1];
        }
      }
      ShortQueryMentions(query[1..], hay);
    }
  }

  lemma {:induction false} ShortQueryIrrelevant(t: Store, query: seq<string>)
    requires forall j :: 0 <= j < |query| ==> |query[j]| <= 2
    ensures Candidates(t, query) == []
  {
    if t != [] {
      ShortQueryIrrelevant(t[..|t| - 1], query);
      ShortQueryMentions(query, Join(t[|t| - 1].0));
    }
  }
}
