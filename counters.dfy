/** `collections.Counter` over command strings: an insertion-ordered dict from
    command to count, where a missing command counts 0, and `most_common(n)`,
    which is a stable sort by count, highest first, cut to `n` entries
    (equal counts stay in insertion order). */
module Counters {
  import opened OrderedDict

  type Entry = (string, nat)
  type Counter = Dict<string, nat>

  /** `c[k]`: 0 for a command never counted. */
  function Count(c: Counter, k: string): nat {
    match Get(c, k)
    case None => 0
    case Some(n) => n
  }

  /** `c[k] += amount`. */
  function Increment(c: Counter, k: string, amount: nat): Counter {
    var n: nat := Count(c, k) + amount;
    Put(c, k, n)
  }

  lemma IncrementIsPut(c: Counter, k: string, amount: nat)
    ensures var n: nat := Count(c, k) + amount; Increment(c, k, amount) == Put(c, k, n)
  {
  }

  lemma CountIncrement(c: Counter, k: string, amount: nat, k': string)
    ensures Count(Increment(c, k, amount), k') == Count(c, k') + (if k' == k then amount else 0)
  {
    var n: nat := Count(c, k) + amount;
    var c' := Increment(c, k, amount);
    assert c' == Put(c, k, n);
    GetPut(c, k, n, k');
    if k' == k {
      assert Get(c', k') == Some(n);
    } else {
      assert Get(c', k') == Get(c, k');
    }
  }

  lemma IncrementKeyed(c: Counter, k: string, amount: nat)
    requires Keyed(c)
    ensures Keyed(Increment(c, k, amount))
  {
    var n: nat := Count(c, k) + amount;
    assert Increment(c, k, amount) == Put(c, k, n);
    PutKeyed(c, k, n);
  }

  predicate NonIncreasing(s: seq<Entry>) {
    forall i, j :: 0 <= i < j < |s| ==> s[i].1 >= s[j].1
  }

  /** The entries of `s` whose count is `v`, in their order in `s`. */
  function WithCount(s: seq<Entry>, v: nat): seq<Entry> {
    if s == [] then []
    else (if s[0].1 == v then [s[0]] else []) + WithCount(s[1..], v)
  }

  /** Places `x` after the entries counting more than it, before the rest. */
  function Insert(x: Entry, s: seq<Entry>): seq<Entry> {
    if s == [] then [x]
    else if s[0].1 > x.1 then [s[0]] + Insert(x, s[1..])
    else [x] + s
  }

  /** `sorted(s, key=count, reverse=True)`. */
  function SortByCount(s: seq<Entry>): seq<Entry> {
    if s == [] then [] else Insert(s[0], SortByCount(s[1..]))
  }

  function Take<T>(s: seq<T>, n: nat): (r: seq<T>)
    ensures |r| == if n < |s| then n else |s|
    ensures r == s[..|r|]
  {
    if n < |s| then s[..n] else s
  }

  /** `c.most_common(n)`. */
  function MostCommon(c: Counter, n: nat): seq<Entry> {
    Take(SortByCount(c), n)
  }

  lemma {:induction false} InsertMultiset(x: Entry, s: seq<Entry>)
    ensures multiset(Insert(x, s)) == multiset(s) + multiset{x}
  {
    if s != [] && s[0].1 > x.1 {
      InsertMultiset(x, s[1..]);
      assert s == [s[0]] + s[1..];
    }
  }

  lemma {:induction false} InsertMembers(x: Entry, s: seq<Entry>)
    ensures forall e :: e in Insert(x, s) ==> e == x || e in s
  {
    if s != [] && s[0].1 > x.1 {
      InsertMembers(x, s[1..]);
    }
  }

  lemma {:induction false} InsertNonIncreasing(x: Entry, s: seq<Entry>)
    requires NonIncreasing(s)
    ensures NonIncreasing(Insert(x, s))
  {
    if s != [] && s[0].1 > x.1 {
      var t := s[1..];
      assert NonIncreasing(t) by {
        forall i, j | 0 <= i < j < |t| ensures t[i].1 >= t[j].1 {
          assert t[i] == s[i + 1] && t[j] == s[j + 1];
        }
      }
      InsertNonIncreasing(x, t);
      InsertMembers(x, t);
      var r := Insert(x, t);
      forall e | e in r ensures e.1 <= s[0].1 {
        if e != x {
          var j :| 0 <= j < |t| && t[j] == e;
          assert s[j + 1] == e;
        }
      }
      var q := [s[0]] + r;
      assert Insert(x, s) == q;
      forall i, j | 0 <= i < j < |q| ensures q[i].1 >= q[j].1 {
        assert q[j] == r[j - 1];
        if i > 0 {
          assert q[i] == r[i - 1];
        }
      }
    } else if s != [] {
      var q := [x] + s;
      assert Insert(x, s) == q;
      forall i, j | 0 <= i < j < |q| ensures q[i].1 >= q[j].1 {
        assert q[j] == s[j - 1];
        if i > 0 {
          assert q[i] == s[i - 1];
        }
      }
    }
  }

  lemma {:induction false} WithCountInsert(x: Entry, s: seq<Entry>, v: nat)
    ensures WithCount(Insert(x, s), v) == if x.1 == v then [x] + WithCount(s, v) else WithCount(s, v)
  {
    if s == [] {
      assert WithCount([x], v) == (if x.1 == v then [x] else []) + WithCount([], v);
    } else if s[0].1 > x.1 {
      WithCountInsert(x, s[1..], v);
      var r := [s[0]] + Insert(x, s[1..]);
      assert r[0] == s[0] && r[1..] == Insert(x, s[1..]);
      assert WithCount(r, v) == (if s[0].1 == v then [s[0]] else []) + WithCount(Insert(x, s[1..]), v);
      assert WithCount(s, v) == (if s[0].1 == v then [s[0]] else []) + WithCount(s[1..], v);
    } else {
      var r := [x] + s;
      assert r[0] == x && r[1..] == s;
      assert WithCount(r, v) == (if x.1 == v then [x] else []) + WithCount(s, v);
    }
  }

  /** SortByCount orders by count, highest first, keeps every entry, and keeps
      the input order among entries of equal count (a stable sort). */
  lemma {:induction false} SortByCountSpec(s: seq<Entry>)
    ensures NonIncreasing(SortByCount(s))
    ensures multiset(SortByCount(s)) == multiset(s)
    ensures forall v :: WithCount(SortByCount(s), v) == WithCount(s, v)
  {
    if s != [] {
      var t := SortByCount(s[1..]);
      SortByCountSpec(s[1..]);
      InsertNonIncreasing(s[0], t);
      InsertMultiset(s[0], t);
      assert s == [s[0]] + s[1..];
      forall v ensures WithCount(SortByCount(s), v) == WithCount(s, v) {
        WithCountInsert(s[0], t, v);
      }
    }
  }

  lemma {:induction false} WithCountBelowHead(s: seq<Entry>, v: nat)
    requires NonIncreasing(s)
    requires s == [] || s[0].1 < v
    ensures WithCount(s, v) == []
  {
    if s != [] {
      assert NonIncreasing(s[1..]) by {
        forall i, j | 0 <= i < j < |s[1..]| ensures s[1..][i].1 >= s[1..][j].1 {
          assert s[1..][i] == s[i + 1] && s[1..][j] == s[j + 1];
        }
      }
      if |s| > 1 { assert s[1..][0] == s[1]; }
      WithCountBelowHead(s[1..], v);
    }
  }

  lemma NonIncreasingTail(s: seq<Entry>)
    requires NonIncreasing(s) && s != []
    ensures NonIncreasing(s[1..])
  {
    forall i, j | 0 <= i < j < |s[1..]| ensures s[1..][i].1 >= s[1..][j].1 {
      assert s[1..][i] == s[i + 1] && s[1..][j] == s[j + 1];
    }
  }

  lemma FirstWithCount(a: seq<Entry>)
    requires a != []
    ensures WithCount(a, a[0].1) == [a[0]] + WithCount(a[1..], a[0].1)
  {
  }

  /** Two count-ordered sequences that agree within every count start alike. */
  lemma SameHead(a: seq<Entry>, b: seq<Entry>)
    requires a != [] && b != []
    requires NonIncreasing(a) && NonIncreasing(b)
    requires forall v :: WithCount(a, v) == WithCount(b, v)
    ensures a[0] == b[0]
  {
    FirstWithCount(a);
    FirstWithCount(b);
    if a[0].1 < b[0].1 {
      WithCountBelowHead(a, b[0].1);
    } else if b[0].1 < a[0].1 {
      WithCountBelowHead(b, a[0].1);
    } else {
      assert WithCount(a, a[0].1) == WithCount(b, a[0].1);
      assert WithCount(a, a[0].1)[0] == a[0];
      assert WithCount(b, a[0].1)[0] == b[0];
    }
  }

  lemma SameTails(a: seq<Entry>, b: seq<Entry>)
    requires a != [] && b != [] && a[0] == b[0]
    requires forall v :: WithCount(a, v) == WithCount(b, v)
    ensures forall v :: WithCount(a[1..], v) == WithCount(b[1..], v)
  {
    forall v ensures WithCount(a[1..], v) == WithCount(b[1..], v) {
      var head := if a[0].1 == v then [a[0]] else [];
      assert WithCount(a, v) == head + WithCount(a[1..], v);
      assert WithCount(b, v) == head + WithCount(b[1..], v);
      assert WithCount(a[1..], v) == WithCount(a, v)[|head|..];
      assert WithCount(b[1..], v) == WithCount(b, v)[|head|..];
    }
  }

  /** Order by count plus the order within each count fix a sequence: the
      stable sort is the only ordering with those two properties. */
  lemma {:induction false} StableOrderUnique(a: seq<Entry>, b: seq<Entry>)
    requires NonIncreasing(a) && NonIncreasing(b)
    requires forall v :: WithCount(a, v) == WithCount(b, v)
    ensures a == b
    decreases |a|
  {
    if a == [] || b == [] {
      if a != [] {
        FirstWithCount(a);
      }
      if b != [] {
        FirstWithCount(b);
      }
    } else {
      SameHead(a, b);
      SameTails(a, b);
      NonIncreasingTail(a);
      NonIncreasingTail(b);
      StableOrderUnique(a[1..], b[1..]);
      assert a == [a[0]] + a[1..] && b == [b[0]] + b[1..];
    }
  }

  /** `most_common(n)` returns min(n, |c|) entries, highest count first. */
  lemma MostCommonShape(c: Counter, n: nat)
    ensures |MostCommon(c, n)| == (if n < |c| then n else |c|)
    ensures NonIncreasing(MostCommon(c, n))
  {
    var s := SortByCount(c);
    SortByCountSpec(c);
    assert |s| == |c| by {
      assert |multiset(s)| == |multiset(c)|;
    }
    var r := MostCommon(c, n);
    forall i, j | 0 <= i < j < |r| ensures r[i].1 >= r[j].1 {
      assert r[i] == s[i] && r[j] == s[j];
    }
  }

  /** `most_common(n)` returns min(n, |c|) entries of `c`, highest count first,
      and every entry it leaves out counts no more than any entry it returns. */
  lemma MostCommonSpec(c: Counter, n: nat)
    ensures var r := MostCommon(c, n);
      && |r| == (if n < |c| then n else |c|)
      && NonIncreasing(r)
      && multiset(r) <= multiset(c)
      && (forall e, j :: e in c && e !in r && 0 <= j < |r| ==> e.1 <= r[j].1)
  {
    var s := SortByCount(c);
    SortByCountSpec(c);
    MostCommonShape(c, n);
    var r := MostCommon(c, n);
    assert r == s[..|r|];
    assert s == r + s[|r|..];
    assert multiset(s) == multiset(r) + multiset(s[|r|..]);
    forall e, j | e in c && e !in r && 0 <= j < |r| ensures e.1 <= r[j].1 {
      assert e in multiset(s);
      var i :| 0 <= i < |s| && s[i] == e;
      assert s[j] == r[j];
    }
  }

  /** `most_common` returns entries of the counter only. */
  lemma MostCommonMembers(c: Counter, n: nat)
    ensures forall e :: e in MostCommon(c, n) ==> e in c
  {
    MostCommonSpec(c, n);
    forall e | e in MostCommon(c, n) ensures e in c {
      assert e in multiset(MostCommon(c, n));
    }
  }

  /** Every entry `most_common` returns is an entry of the counter, so in a
      counter with distinct commands it carries that command's count. */
  lemma MostCommonEntry(c: Counter, n: nat, e: Entry)
    requires Keyed(c)
    requires e in MostCommon(c, n)
    ensures Get(c, e.0) == Some(e.1)
  {
    MostCommonMembers(c, n);
    var i :| 0 <= i < |c| && c[i] == e;
    KeyedGet(c, i);
  }

  /** Ties in `most_common` go by insertion order: its result is the first
      `n` entries of any count-ordered arrangement of `c` that keeps the
      order of `c` within each count. */
  lemma MostCommonStable(c: Counter, n: nat, s: seq<Entry>)
    requires NonIncreasing(s)
    requires forall v :: WithCount(s, v) == WithCount(c, v)
    ensures MostCommon(c, n) == Take(s, n)
  {
    SortByCountSpec(c);
    StableOrderUnique(SortByCount(c), s);
  }
}
