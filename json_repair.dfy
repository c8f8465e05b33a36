/** `LocalWorldModel._fix_json_line` of src/nxcmd/model.py: the rewrite
    `re.sub(r'("cmd":")(.*?)(",)', ...)` that puts a backslash in front of
    every double quote between `"cmd":"` and the next `",`. */
module JsonRepair {
  import opened OrderedDict
  import opened PyStr

  /** The text matched by the regex's first group. */
  const Open: string := "\"cmd\":\""

  /** The text matched by its third group. */
  const Close: string := "\","

  predicate CloseAt(s: string, j: int) {
    0 <= j && j + 1 < |s| && s[j] == '"' && s[j + 1] == ','
  }

  /** Where the first `",` of `s` starts. */
  function FirstClose(s: string): (r: Option<nat>)
    ensures r.Some? ==> CloseAt(s, r.value) && forall j :: 0 <= j < r.value ==> !CloseAt(s, j)
    ensures r.None? ==> forall j :: 0 <= j < |s| ==> !CloseAt(s, j)
  {
    if |s| < 2 then None
    else if s[0] == '"' && s[1] == ',' then Some(0)
    else
      assert forall j :: 1 <= j < |s| ==> (CloseAt(s, j) <==> CloseAt(s[1..], j - 1));
      match FirstClose(s[1..])
      case None => None
      case Some(j) => Some(j + 1)
  }

  /** Where the lazy `.*?` stops when the pattern is tried at the start of
      `s`: the length of the text between `"cmd":"` and the first `",`
      after it, provided that text holds no line feed (`.` does not match
      one). None when the pattern does not match here. */
  function MatchAt(s: string): (r: Option<nat>)
    ensures r.Some? ==> |Open| + r.value + |Close| <= |s|
    ensures r.Some? ==> StartsWith(s, Open) && CloseAt(s[|Open|..], r.value) && '\n' !in s[|Open|..][..r.value]
    ensures r.Some? ==> forall j :: 0 <= j < r.value ==> !CloseAt(s[|Open|..], j)
    ensures r.None? && StartsWith(s, Open) ==>
      forall j :: CloseAt(s[|Open|..], j) ==> '\n' in s[|Open|..][..j]
  {
    if !StartsWith(s, Open) then None
    else
      var body := s[|Open|..];
      match FirstClose(body)
      case None => None
      case Some(j) =>
        if '\n' in body[..j] then
          NewlineBeforeEveryClose(body, j);
          None
        else Some(j)
  }

  /** A line feed before the first `",` lies before every later one too. */
  lemma NewlineBeforeEveryClose(body: string, j: nat)
    requires j <= |body| && '\n' in body[..j]
    requires forall i :: 0 <= i < j ==> !CloseAt(body, i)
    ensures forall i :: CloseAt(body, i) ==> '\n' in body[..i]
  {
    var p :| 0 <= p < j && body[..j][p] == '\n';
    forall i | CloseAt(body, i) ensures '\n' in body[..i] {
      assert body[..i][p] == '\n';
    }
  }

  /** `content.replace('"', '\\"')`. */
  function Escape(c: string): string {
    if c == [] then []
    else (if c[0] == '"' then "\\\"" else [c[0]]) + Escape(c[1..])
  }

  /** The rewrite: scan left to right; at a match, escape its middle and go
      on after its `",`; elsewhere keep the character and move one on. */
  function FixJsonLine(s: string): string
    decreases |s|
  {
    if s == [] then []
    else match MatchAt(s)
      case Some(j) =>
        var body := s[|Open|..];
        Open + Escape(body[..j]) + Close + FixJsonLine(body[j + |Close|..])
      case None => [s[0]] + FixJsonLine(s[1..])
  }

  /** The pattern matches somewhere in `s`. */
  predicate HasMatch(s: string) {
    s != [] && (MatchAt(s).Some? || HasMatch(s[1..]))
  }

  /** The characters of `s` other than backslashes, in order. */
  function NoBackslashes(s: string): string {
    if s == [] then []
    else (if s[0] == '\\' then [] else [s[0]]) + NoBackslashes(s[1..])
  }

  function Quotes(s: string): nat {
    if s == [] then 0 else (if s[0] == '"' then 1 else 0) + Quotes(s[1..])
  }

  lemma {:induction false} NoBackslashesConcat(a: string, b: string)
    ensures NoBackslashes(a + b) == NoBackslashes(a) + NoBackslashes(b)
  {
    if a != [] {
      assert (a + b)[0] == a[0] && (a + b)[1..] == a[1..] + b;
      NoBackslashesConcat(a[1..], b);
    } else {
      assert a + b == b;
    }
  }

  lemma {:induction false} QuotesConcat(a: string, b: string)
    ensures Quotes(a + b) == Quotes(a) + Quotes(b)
  {
    if a != [] {
      assert (a + b)[0] == a[0] && (a + b)[1..] == a[1..] + b;
      QuotesConcat(a[1..], b);
    } else {
      assert a + b == b;
    }
  }

  /** Escaping gives every quote a backslash just before it and adds nothing
      else: one extra character per quote, and the same text once
      backslashes are set aside. */
  lemma {:induction false} EscapeSpec(c: string)
    ensures forall i :: 0 <= i < |Escape(c)| && Escape(c)[i] == '"' ==> i > 0 && Escape(c)[i - 1] == '\\'
    ensures |Escape(c)| == |c| + Quotes(c)
    ensures NoBackslashes(Escape(c)) == NoBackslashes(c)
  {
    if c != [] {
      EscapeSpec(c[1..]);
      var head := if c[0] == '"' then "\\\"" else [c[0]];
      var e := Escape(c[1..]);
      assert Escape(c) == head + e;
      forall i | 0 <= i < |head + e| && (head + e)[i] == '"' ensures i > 0 && (head + e)[i - 1] == '\\' {
        if i > |head| {
          assert (head + e)[i] == e[i - |head|];
          assert (head + e)[i - 1] == e[i - 1 - |head|];
        }
      }
      NoBackslashesConcat(head, e);
      assert NoBackslashes(c) == NoBackslashes([c[0]]) + NoBackslashes(c[1..]) by {
        assert c == [c[0]] + c[1..];
        NoBackslashesConcat([c[0]], c[1..]);
      }
      assert NoBackslashes("\\\"") == NoBackslashes(['"']);
    }
  }

  /** A match whose command text holds a double quote lengthens the line,
      one backslash per quote at least: such a line reaches the decoder
      changed. */
  lemma FixLengthensQuoted(s: string)
    requires MatchAt(s).Some?
    requires Quotes(s[|Open|..][..MatchAt(s).value]) > 0
    ensures |FixJsonLine(s)| >= |s| + Quotes(s[|Open|..][..MatchAt(s).value])
  {
    var j := MatchAt(s).value;
    var body := s[|Open|..];
    EscapeSpec(body[..j]);
    FixOnlyAddsBackslashes(body[j + |Close|..]);
    MatchSplit(s, j);
  }

  lemma MatchSplit(s: string, j: nat)
    requires MatchAt(s) == Some(j)
    ensures s == Open + s[|Open|..][..j] + Close + s[|Open|..][j + |Close|..]
  {
    var body := s[|Open|..];
    assert CloseAt(body, j);
    assert body[j..j + 2] == Close;
    assert body == body[..j] + Close + body[j + 2..];
    assert s == s[..|Open|] + body;
  }

  /** A line the pattern matches nowhere is returned unchanged. */
  lemma {:induction false} FixWithoutMatch(s: string)
    requires !HasMatch(s)
    ensures FixJsonLine(s) == s
    decreases |s|
  {
    if s != [] {
      FixWithoutMatch(s[1..]);
      assert s == [s[0]] + s[1..];
    }
  }

  /** The rewrite only inserts backslashes, one in front of each quote it
      escapes: set backslashes aside and the line is what it was. */
  lemma {:induction false} FixOnlyAddsBackslashes(s: string)
    ensures NoBackslashes(FixJsonLine(s)) == NoBackslashes(s)
    ensures |FixJsonLine(s)| >= |s|
    decreases |s|
  {
    if s != [] {
      match MatchAt(s)
      case Some(j) =>
        FixOnlyAddsBackslashes(s[|Open|..][j + |Close|..]);
        FixMatchStep(s, j);
      case None =>
        FixOnlyAddsBackslashes(s[1..]);
        FixKeepStep(s);
    }
  }

  /** `FixOnlyAddsBackslashes` at a match, given it for the text after. */
  lemma FixMatchStep(s: string, j: nat)
    requires MatchAt(s) == Some(j)
    requires var rest := s[|Open|..][j + |Close|..];
      NoBackslashes(FixJsonLine(rest)) == NoBackslashes(rest) && |FixJsonLine(rest)| >= |rest|
    ensures NoBackslashes(FixJsonLine(s)) == NoBackslashes(s)
    ensures |FixJsonLine(s)| >= |s|
  {
    var body := s[|Open|..];
    var c, rest := body[..j], body[j + |Close|..];
    MatchSplit(s, j);
    EscapeSpec(c);
    NoBackslashesConcat(Open + Escape(c) + Close, FixJsonLine(rest));
    NoBackslashesConcat(Open + Escape(c), Close);
    NoBackslashesConcat(Open, Escape(c));
    NoBackslashesConcat(Open + c + Close, rest);
    NoBackslashesConcat(Open + c, Close);
    NoBackslashesConcat(Open, c);
  }

  /** `FixOnlyAddsBackslashes` where no match starts, given it for the
      text after the first character. */
  lemma FixKeepStep(s: string)
    requires s != [] && MatchAt(s).None?
    requires NoBackslashes(FixJsonLine(s[1..])) == NoBackslashes(s[1..]) && |FixJsonLine(s[1..])| >= |s[1..]|
    ensures NoBackslashes(FixJsonLine(s)) == NoBackslashes(s)
    ensures |FixJsonLine(s)| >= |s|
  {
    NoBackslashesConcat([s[0]], FixJsonLine(s[1..]));
    NoBackslashesConcat([s[0]], s[1..]);
    assert s == [s[0]] + s[1..];
  }

  /** How many quotes the rewrite escapes: those inside the command text of
      each match the left-to-right scan finds. */
  function MatchedQuotes(s: string): nat
    decreases |s|
  {
    if s == [] then 0
    else match MatchAt(s)
      case Some(j) =>
        var body := s[|Open|..];
        Quotes(body[..j]) + MatchedQuotes(body[j + |Close|..])
      case None => MatchedQuotes(s[1..])
  }

  /** The rewrite inserts exactly one character per quote inside a match and
      adds no quote; the quotes it escapes are among those of the line. */
  lemma {:induction false} FixExactLength(s: string)
    ensures |FixJsonLine(s)| == |s| + MatchedQuotes(s)
    ensures MatchedQuotes(s) <= Quotes(s)
    ensures Quotes(FixJsonLine(s)) == Quotes(s)
    decreases |s|
  {
    if s != [] {
      match MatchAt(s)
      case Some(j) =>
        FixExactLength(s[|Open|..][j + |Close|..]);
        FixLengthMatchStep(s, j);
      case None =>
        FixExactLength(s[1..]);
        QuotesConcat([s[0]], s[1..]);
        assert s == [s[0]] + s[1..];
    }
    FixOnlyAddsBackslashes(s);
    QuotesNoBackslashes(s);
    QuotesNoBackslashes(FixJsonLine(s));
  }

  /** `FixExactLength` at a match, given it for the text after. */
  lemma FixLengthMatchStep(s: string, j: nat)
    requires MatchAt(s) == Some(j)
    requires var rest := s[|Open|..][j + |Close|..];
      |FixJsonLine(rest)| == |rest| + MatchedQuotes(rest) && MatchedQuotes(rest) <= Quotes(rest)
    ensures |FixJsonLine(s)| == |s| + MatchedQuotes(s)
    ensures MatchedQuotes(s) <= Quotes(s)
  {
    var body := s[|Open|..];
    var c, rest := body[..j], body[j + |Close|..];
    MatchSplit(s, j);
    EscapeSpec(c);
    QuotesConcat(Open + c + Close, rest);
    QuotesConcat(Open + c, Close);
    QuotesConcat(Open, c);
  }

  /** Setting backslashes aside keeps every quote. */
  lemma {:induction false} QuotesNoBackslashes(s: string)
    ensures Quotes(NoBackslashes(s)) == Quotes(s)
  {
    if s != [] {
      QuotesNoBackslashes(s[1..]);
      var head := if s[0] == '\\' then [] else [s[0]];
      QuotesConcat(head, NoBackslashes(s[1..]));
    }
  }

  /** A quote that is already escaped is escaped again: `\"` becomes `\\"`. */
  lemma EscapeEscapedQuote()
    ensures Escape(['\\', '"']) == ['\\', '\\', '"']
  {
    assert Escape(['\\', '"']) == ['\\'] + Escape(['"']);
    assert Escape(['"']) == "\\\"" + Escape([]);
  }
}
