/** The few Python `str` operations the engine relies on: whitespace `split()`,
    `' '.join`, `strip()`, `isdigit()`, `startswith` and substring `in`.
    Whitespace and digits are restricted to ASCII. */
module PyStr {

  /** The ASCII characters Python's `str.split()` and `str.strip()` treat as
      whitespace: space, tab, line feed, vertical tab, form feed, carriage
      return and the separators 0x1C-0x1F. */
  predicate IsSpace(c: char) {
    c == ' ' || c == '\t' || c == '\n' || c == '\U{B}' || c == '\U{C}' || c == '\r'
    || ('\U{1C}' <= c <= '\U{1F}')
  }

  predicate IsDigit(c: char) {
    '0' <= c <= '9'
  }

  /** `str.isdigit()`: non-empty and made of digits only. */
  predicate IsDigits(s: string) {
    |s| > 0 && forall i :: 0 <= i < |s| ==> IsDigit(s[i])
  }

  /** A word of `split()`'s output: non-empty, no whitespace in it. */
  predicate IsToken(t: string) {
    t != [] && forall i :: 0 <= i < |t| ==> !IsSpace(t[i])
  }

  predicate AllTokens(ts: seq<string>) {
    forall k :: 0 <= k < |ts| ==> IsToken(ts[k])
  }

  /** Length of the longest whitespace-free prefix of `s`. */
  function TokenLen(s: string): (n: nat)
    ensures n <= |s|
    ensures forall i :: 0 <= i < n ==> !IsSpace(s[i])
    ensures n < |s| ==> IsSpace(s[n])
  {
    if s == [] || IsSpace(s[0]) then 0 else 1 + TokenLen(s[1..])
  }

  /** `s.split()` with no separator: the maximal whitespace-free runs of `s`. */
  function Split(s: string): (ts: seq<string>)
    ensures AllTokens(ts)
    decreases |s|
  {
    if s == [] then []
    else if IsSpace(s[0]) then Split(s[1..])
    else
      var n := TokenLen(s);
      [s[..n]] + Split(s[n..])
  }

  /** `' '.join(ts)`. */
  function Join(ts: seq<string>): string {
    if ts == [] then ""
    else if |ts| == 1 then ts[0]
    else ts[0] + " " + Join(ts[1..])
  }

  function StripLeft(s: string): string {
    if s != [] && IsSpace(s[0]) then StripLeft(s[1..]) else s
  }

  function StripRight(s: string): string {
    if s != [] && IsSpace(s[|s| - 1]) then StripRight(s[..|s| - 1]) else s
  }

  /** `s.strip()` with no argument. */
  function Strip(s: string): string {
    StripRight(StripLeft(s))
  }

  predicate StartsWith(s: string, prefix: string) {
    |prefix| <= |s| && s[..|prefix|] == prefix
  }

  /** `needle in hay` for strings. */
  predicate Contains(hay: string, needle: string) {
    StartsWith(hay, needle) || (hay != [] && Contains(hay[1..], needle))
  }

  /** How `' '.join(s.split())` leaves a string: whitespace only as single
      spaces, none at either end. */
  predicate WellSpaced(s: string) {
    && (forall i :: 0 <= i < |s| && IsSpace(s[i]) ==> s[i] == ' ')
    && (|s| > 0 ==> s[0] != ' ' && s[|s| - 1] != ' ')
    && (forall i :: 0 <= i < |s| - 1 && s[i] == ' ' ==> s[i + 1] != ' ')
  }

  lemma TokenLenOfToken(t: string, rest: string)
    requires IsToken(t)
    requires rest == [] || IsSpace(rest[0])
    ensures TokenLen(t + rest) == |t|
  {
    var s := t + rest;
    assert forall i :: 0 <= i < |t| ==> s[i] == t[i];
    assert |t| < |s| ==> s[|t|] == rest[0];
  }

  lemma SplitLeadingSpace(s: string)
    requires s != [] && IsSpace(s[0])
    ensures Split(s) == Split(s[1..])
  {
  }

  /** Whitespace only (possibly nothing). */
  predicate AllSpace(w: string) {
    forall i :: 0 <= i < |w| ==> IsSpace(w[i])
  }

  /** Leading whitespace, of any kind and length, is skipped by `split()`. */
  lemma {:induction false} SplitLeadingSpaces(w: string, t: string)
    requires AllSpace(w)
    ensures Split(w + t) == Split(t)
    decreases |w|
  {
    if w != [] {
      assert (w + t)[0] == w[0];
      SplitLeadingSpace(w + t);
      assert (w + t)[1..] == w[1..] + t;
      assert AllSpace(w[1..]) by {
        forall i | 0 <= i < |w[1..]| ensures IsSpace(w[1..][i]) {
          assert w[1..][i] == w[i + 1];
        }
      }
      SplitLeadingSpaces(w[1..], t);
    } else {
      assert w + t == t;
    }
  }

  /** Splitting a join of words gives the words back. */
  lemma {:induction false} SplitJoin(ts: seq<string>)
    requires AllTokens(ts)
    ensures Split(Join(ts)) == ts
  {
    if ts == [] {
    } else if |ts| == 1 {
      var t := ts[0];
      assert IsToken(t);
      TokenLenOfToken(t, []);
      assert t + [] == t;
      assert t[..|t|] == t && t[|t|..] == [];
    } else {
      var t, rest := ts[0], Join(ts[1..]);
      assert IsToken(t);
      var s := t + " " + rest;
      assert s == t + (" " + rest);
      TokenLenOfToken(t, " " + rest);
      assert s[..|t|] == t;
      assert s[|t|..] == " " + rest;
      SplitLeadingSpace(" " + rest);
      assert (" " + rest)[1..] == rest;
      SplitJoin(ts[1..]);
      assert Split(s) == [t] + Split(rest);
    }
  }

  /** A join of words is well spaced. */
  lemma {:induction false} JoinWellSpaced(ts: seq<string>)
    requires AllTokens(ts)
    ensures WellSpaced(Join(ts))
  {
    if ts == [] {
    } else if |ts| == 1 {
      assert IsToken(ts[0]);
    } else {
      var t, rest := ts[0], Join(ts[1..]);
      assert IsToken(t);
      JoinWellSpaced(ts[1..]);
      assert IsToken(ts[1]);
      JoinNonEmpty(ts[1..]);
      var s := t + " " + rest;
      forall i | 0 <= i < |s| && IsSpace(s[i]) ensures s[i] == ' ' {
        if i > |t| { assert s[i] == rest[i - |t| - 1]; }
      }
      forall i | 0 <= i < |s| - 1 && s[i] == ' ' ensures s[i + 1] != ' ' {
        if i == |t| { assert s[i + 1] == rest[0]; }
        else if i > |t| { assert s[i] == rest[i - |t| - 1] && s[i + 1] == rest[i - |t|]; }
      }
      assert s[0] == t[0];
      assert s[|s| - 1] == rest[|rest| - 1];
    }
  }

  lemma {:induction false} JoinNonEmpty(ts: seq<string>)
    requires AllTokens(ts) && ts != []
    ensures Join(ts) != []
  {
    assert IsToken(ts[0]);
    if |ts| > 1 {
      assert Join(ts) == ts[0] + " " + Join(ts[1..]);
    }
  }

  /** The join of a split is empty exactly when the string held no word. */
  lemma JoinEmptyIff(ts: seq<string>)
    requires AllTokens(ts)
    ensures Join(ts) == [] <==> ts == []
  {
    if ts != [] { JoinNonEmpty(ts); }
  }

  lemma WellSpacedAfterSpace(s: string, n: nat)
    requires WellSpaced(s) && n < |s| && s[n] == ' '
    ensures n + 1 < |s| && !IsSpace(s[n + 1])
    ensures WellSpaced(s[n + 1..])
  {
    var r := s[n + 1..];
    assert s[n + 1] != ' ';
    forall i | 0 <= i < |r| && IsSpace(r[i]) ensures r[i] == ' ' {
      assert r[i] == s[n + 1 + i];
    }
    forall i | 0 <= i < |r| - 1 && r[i] == ' ' ensures r[i + 1] != ' ' {
      assert r[i] == s[n + 1 + i] && r[i + 1] == s[n + 2 + i];
    }
    assert r[|r| - 1] == s[|s| - 1];
  }

  lemma SplitFirstWord(s: string)
    requires s != [] && !IsSpace(s[0])
    ensures TokenLen(s) > 0
    ensures Split(s) == [s[..TokenLen(s)]] + Split(s[TokenLen(s)..])
  {
  }

  /** A word followed by whitespace splits off as the first word. */
  lemma SplitWordThen(w: string, rest: string)
    requires IsToken(w) && rest != [] && IsSpace(rest[0])
    ensures Split(w + rest) == [w] + Split(rest)
  {
    TokenLenOfToken(w, rest);
    var s := w + rest;
    assert s[0] == w[0];
    SplitFirstWord(s);
    assert s[..|w|] == w;
    assert s[|w|..] == rest;
  }

  lemma SplitAtSpace(s: string)
    requires s != [] && !IsSpace(s[0]) && TokenLen(s) < |s|
    ensures Split(s) == [s[..TokenLen(s)]] + Split(s[TokenLen(s) + 1..])
  {
    var n := TokenLen(s);
    var tail := s[n..];
    SplitFirstWord(s);
    assert tail[1..] == s[n + 1..];
    SplitLeadingSpace(tail);
  }

  lemma JoinCons(t: string, ts: seq<string>)
    requires ts != []
    ensures Join([t] + ts) == t + " " + Join(ts)
  {
    assert ([t] + ts)[1..] == ts;
  }

  lemma SplitOneWord(s: string)
    requires s != [] && !IsSpace(s[0]) && TokenLen(s) == |s|
    ensures Split(s) == [s]
  {
    SplitFirstWord(s);
    assert s[..|s|] == s && s[|s|..] == [];
  }

  /** A well-spaced string is left as it is by `' '.join(s.split())`. */
  lemma {:induction false} JoinSplitWellSpaced(s: string)
    requires WellSpaced(s)
    ensures Join(Split(s)) == s
    decreases |s|
  {
    if s != [] {
      assert !IsSpace(s[0]);
      var n := TokenLen(s);
      if n < |s| {
        assert s[n] == ' ';
        WellSpacedAfterSpace(s, n);
        JoinSplitWellSpaced(s[n + 1..]);
        JoinSplitFirstWord(s, n);
      } else {
        SplitOneWord(s);
      }
    }
  }

  /** The step of `JoinSplitWellSpaced`: the first word, one space, and the
      rest rebuilt from its own words. */
  lemma JoinSplitFirstWord(s: string, n: nat)
    requires s != [] && !IsSpace(s[0]) && n == TokenLen(s)
    requires n + 1 < |s| && s[n] == ' ' && !IsSpace(s[n + 1])
    requires Join(Split(s[n + 1..])) == s[n + 1..]
    ensures Join(Split(s)) == s
  {
    var w, rest := s[..n], s[n + 1..];
    SplitAtSpace(s);
    SplitFirstWord(rest);
    JoinCons(w, Split(rest));
    SliceAround(s, n);
  }

  lemma SliceAround(s: string, n: nat)
    requires n < |s|
    ensures s == s[..n] + [s[n]] + s[n + 1..]
  {
  }

  lemma TokenLenTrailingSpace(x: string, c: char)
    requires IsSpace(c)
    ensures TokenLen(x + [c]) == TokenLen(x)
  {
    var s := x + [c];
    var n := TokenLen(x);
    assert forall i :: 0 <= i < |x| ==> s[i] == x[i];
    assert s[|x|] == c;
  }

  lemma {:induction false} SplitTrailingSpace(x: string, c: char)
    requires IsSpace(c)
    ensures Split(x + [c]) == Split(x)
    decreases |x|
  {
    var s := x + [c];
    if x == [] {
      assert s == [c];
      SplitLeadingSpace(s);
      assert s[1..] == [];
    } else if IsSpace(x[0]) {
      SplitLeadingSpace(s);
      assert s[1..] == x[1..] + [c];
      SplitTrailingSpace(x[1..], c);
    } else {
      TokenLenTrailingSpace(x, c);
      var n := TokenLen(x);
      assert s[..n] == x[..n];
      assert s[n..] == x[n..] + [c];
      SplitTrailingSpace(x[n..], c);
    }
  }

  /** `strip()` before `split()` changes nothing. */
  lemma {:induction false} SplitStrip(s: string)
    ensures Split(Strip(s)) == Split(s)
  {
    SplitStripLeft(s);
    SplitStripRight(StripLeft(s));
  }

  lemma {:induction false} SplitStripLeft(s: string)
    ensures Split(StripLeft(s)) == Split(s)
  {
    if s != [] && IsSpace(s[0]) {
      SplitStripLeft(s[1..]);
    }
  }

  lemma {:induction false} SplitStripRight(s: string)
    ensures Split(StripRight(s)) == Split(s)
  {
    if s != [] && IsSpace(s[|s| - 1]) {
      var x := s[..|s| - 1];
      assert s == x + [s[|s| - 1]];
      SplitTrailingSpace(x, s[|s| - 1]);
      SplitStripRight(x);
    }
  }
}
