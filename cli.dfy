/** `get_recent_commands` of src/nxcmd/cli.py: the last `n` commands of the
    history file, oldest first, leaving out nxcmd's own invocations. Its
    `clean_command` is the same code as the model's cleaner and is
    `Command.CleanCommand` here. `decodeCmd` stands for `json.loads` of the
    stripped line followed by `record["cmd"]`: it gives the field when the
    line is a JSON object whose `cmd` is a string, and None when any step
    raises (the bare `except` catches every error). */
module Cli {
  import opened OrderedDict
  import opened PyStr
  import opened Command
  import Segmenter

  /** The command a line contributes, if any: its `cmd` field stripped and
      cleaned, when it cleans to something and the stripped field mentions
      neither `nextcmd` nor `main.py`. */
  function CmdOf(line: string, decodeCmd: string -> Option<string>): (r: Option<string>)
    ensures r.Some? ==> r.value != "" && WellSpaced(r.value)
  {
    match decodeCmd(Strip(line))
    case None => None
    case Some(raw) =>
      var cmd := Strip(raw);
      var cleaned := CleanCommand(cmd);
      CleanCommandSpec(cmd);
      if cleaned != "" && !Contains(cmd, "nextcmd") && !Contains(cmd, "main.py") then Some(cleaned) else None
  }

  /** The command a line contributes, as a sequence of zero or one. */
  function Piece(line: string, decodeCmd: string -> Option<string>): seq<string> {
    match CmdOf(line, decodeCmd) case None => [] case Some(c) => [c]
  }

  /** The contributed commands of a file, in file order. */
  function Qualified(lines: seq<string>, decodeCmd: string -> Option<string>): seq<string> {
    if lines == [] then [] else Piece(lines[0], decodeCmd) + Qualified(lines[1..], decodeCmd)
  }

  /** How many commands are kept: the loop stops once it holds `n`, and it
      checks only after adding one, so a non-positive `n` still keeps one. */
  function Limit(n: int): nat {
    if n >= 1 then n else 1
  }

  /** The last `Limit(n)` commands of `q`, or all of them when there are
      fewer. */
  function LastCommands(q: seq<string>, n: int): (r: seq<string>)
    ensures |r| == if |q| < Limit(n) then |q| else Limit(n)
    ensures q == q[..|q| - |r|] + r
  {
    var m := if |q| < Limit(n) then |q| else Limit(n);
    q[|q| - m..]
  }

  function Reverse<T>(s: seq<T>): (r: seq<T>)
    ensures |r| == |s|
  {
    if s == [] then [] else Reverse(s[1..]) + [s[0]]
  }

  /** `get_recent_commands(n)`: walk the lines from the end, collect
      contributed commands until `n` are held, and return them in file
      order; a missing file gives none. */
  method GetRecentCommands(log: Option<seq<string>>, decodeCmd: string -> Option<string>, n: int)
    returns (r: seq<string>)
    ensures log.None? ==> r == []
    ensures log.Some? ==> r == LastCommands(Qualified(log.value, decodeCmd), n)
  {
    if log.None? {
      return [];
    }
    var lines := log.value;
    var recent: seq<string> := [];
    var i := |lines|;
    while i > 0
      invariant 0 <= i <= |lines|
      invariant recent == Reverse(Qualified(lines[i..], decodeCmd))
      invariant |recent| < Limit(n)
    {
      i := i - 1;
      ReversedStep(lines, i, decodeCmd);
      match CmdOf(lines[i], decodeCmd)
      case None =>
      case Some(c) =>
        recent := recent + [c];
        if |recent| >= n {
          break;
        }
    }
    RecentAreLast(lines, i, decodeCmd, n, recent);
    r := Reverse(recent);
  }

  /** Where the walk stops: either it reached the first line holding fewer
      than the limit, or it holds exactly the limit; either way the reversed
      collection is the last commands of the file. */
  lemma RecentAreLast(lines: seq<string>, i: nat, decodeCmd: string -> Option<string>, n: int, recent: seq<string>)
    requires i <= |lines|
    requires recent == Reverse(Qualified(lines[i..], decodeCmd))
    requires (i == 0 && |recent| < Limit(n)) || |recent| == Limit(n)
    ensures Reverse(recent) == LastCommands(Qualified(lines, decodeCmd), n)
  {
    var q, tail := Qualified(lines, decodeCmd), Qualified(lines[i..], decodeCmd);
    QualifiedSplit(lines, i, decodeCmd);
    ReverseReverse(tail);
    assert q == Qualified(lines[..i], decodeCmd) + tail;
    if i == 0 {
      assert lines[..i] == [];
      assert q == tail;
    }
  }

  /** Walking back over line `i` appends its command, if any, to the
      reversed commands of the lines after it. */
  lemma ReversedStep(lines: seq<string>, i: nat, decodeCmd: string -> Option<string>)
    requires i < |lines|
    ensures Reverse(Qualified(lines[i..], decodeCmd)) ==
      Reverse(Qualified(lines[i + 1..], decodeCmd)) + Piece(lines[i], decodeCmd)
  {
    assert lines[i..][1..] == lines[i + 1..];
    var rest := Qualified(lines[i + 1..], decodeCmd);
    match CmdOf(lines[i], decodeCmd)
    case None =>
      assert Qualified(lines[i..], decodeCmd) == rest;
    case Some(c) =>
      assert Qualified(lines[i..], decodeCmd) == [c] + rest;
      assert ([c] + rest)[1..] == rest;
  }

  lemma {:induction false} QualifiedConcat(a: seq<string>, b: seq<string>, decodeCmd: string -> Option<string>)
    ensures Qualified(a + b, decodeCmd) == Qualified(a, decodeCmd) + Qualified(b, decodeCmd)
    decreases |a|
  {
    if a == [] {
      assert a + b == b;
    } else {
      assert (a + b)[0] == a[0];
      assert (a + b)[1..] == a[1..] + b;
      QualifiedConcat(a[1..], b, decodeCmd);
      ConcatAssoc(Piece(a[0], decodeCmd), Qualified(a[1..], decodeCmd), Qualified(b, decodeCmd));
    }
  }

  lemma ConcatAssoc<T>(x: seq<T>, y: seq<T>, z: seq<T>)
    ensures x + (y + z) == x + y + z
  {
  }

  lemma QualifiedSplit(lines: seq<string>, i: nat, decodeCmd: string -> Option<string>)
    requires i <= |lines|
    ensures Qualified(lines, decodeCmd) == Qualified(lines[..i], decodeCmd) + Qualified(lines[i..], decodeCmd)
  {
    var a, b := lines[..i], lines[i..];
    assert lines == a + b;
    QualifiedConcat(a, b, decodeCmd);
  }

  lemma {:induction false} ReverseReverse<T>(s: seq<T>)
    ensures Reverse(Reverse(s)) == s
  {
    if s != [] {
      ReverseSnoc(Reverse(s[1..]), s[0]);
      ReverseReverse(s[1..]);
    }
  }

  /** Position `i` of the reversal holds position `|s| - 1 - i` of `s`. */
  lemma {:induction false} ReverseIndex<T>(s: seq<T>)
    ensures forall i :: 0 <= i < |s| ==> Reverse(s)[i] == s[|s| - 1 - i]
  {
    if s != [] {
      ReverseIndex(s[1..]);
      var r := Reverse(s[1..]);
      assert Reverse(s) == r + [s[0]];
      forall i | 0 <= i < |s| ensures Reverse(s)[i] == s[|s| - 1 - i] {
        if i < |r| {
          assert Reverse(s)[i] == r[i] == s[1..][|r| - 1 - i];
        }
      }
    }
  }

  lemma {:induction false} ReverseSnoc<T>(s: seq<T>, x: T)
    ensures Reverse(s + [x]) == [x] + Reverse(s)
  {
    if s == [] {
      assert [x][1..] == [];
    } else {
      assert (s + [x])[1..] == s[1..] + [x];
      ReverseSnoc(s[1..], x);
    }
  }

  /** Every returned command is contributed by some line of the file: it
      is non-empty, single-spaced, and that line's `cmd` field mentions
      neither `nextcmd` nor `main.py`. */
  lemma {:induction false} QualifiedFromLines(lines: seq<string>, decodeCmd: string -> Option<string>)
    ensures forall c :: c in Qualified(lines, decodeCmd) ==>
      c != "" && WellSpaced(c) && exists k :: 0 <= k < |lines| && CmdOf(lines[k], decodeCmd) == Some(c)
  {
    if lines != [] {
      QualifiedFromLines(lines[1..], decodeCmd);
      forall c | c in Qualified(lines, decodeCmd)
        ensures c != "" && WellSpaced(c) && exists k :: 0 <= k < |lines| && CmdOf(lines[k], decodeCmd) == Some(c)
      {
        if c !in Qualified(lines[1..], decodeCmd) {
          assert CmdOf(lines[0], decodeCmd) == Some(c);
        } else {
          var k :| 0 <= k < |lines[1..]| && CmdOf(lines[1..][k], decodeCmd) == Some(c);
          assert lines[k + 1] == lines[1..][k];
        }
      }
    }
  }

  /** A line whose `cmd` mentions `nextcmd` or `main.py` changes nothing:
      the tool never feeds its own invocations back as context. */
  lemma OwnInvocationIgnored(pre: seq<string>, line: string, post: seq<string>, decodeCmd: string -> Option<string>, n: int)
    requires decodeCmd(Strip(line)).Some?
    requires Contains(Strip(decodeCmd(Strip(line)).value), "nextcmd") ||
             Contains(Strip(decodeCmd(Strip(line)).value), "main.py")
    ensures LastCommands(Qualified(pre + [line] + post, decodeCmd), n) ==
            LastCommands(Qualified(pre + post, decodeCmd), n)
  {
    assert CmdOf(line, decodeCmd) == None;
    QualifiedDrop(pre, line, post, decodeCmd);
  }

  lemma QualifiedDrop(pre: seq<string>, line: string, post: seq<string>, decodeCmd: string -> Option<string>)
    requires CmdOf(line, decodeCmd) == None
    ensures Qualified(pre + [line] + post, decodeCmd) == Qualified(pre + post, decodeCmd)
  {
    var a := pre + [line];
    QualifiedSingle(line, decodeCmd);
    QualifiedConcat(pre, [line], decodeCmd);
    assert Qualified(a, decodeCmd) == Qualified(pre, decodeCmd) + [];
    assert Qualified(a, decodeCmd) == Qualified(pre, decodeCmd);
    QualifiedConcat(a, post, decodeCmd);
    QualifiedConcat(pre, post, decodeCmd);
  }

  lemma QualifiedSingle(line: string, decodeCmd: string -> Option<string>)
    ensures Qualified([line], decodeCmd) == Piece(line, decodeCmd)
  {
    assert [line][1..] == [];
  }

  /** The most recent contributed command is always returned last, whatever
      `n` is. */
  lemma NewestLast(q: seq<string>, n: int)
    requires q != []
    ensures LastCommands(q, n) != [] && LastCommands(q, n)[|LastCommands(q, n)| - 1] == q[|q| - 1]
  {
  }

  /** Unlike the trainer, the selection keeps comments and failed commands:
      a `#` comment is rejected by the session parser for any exit code,
      yet it is a recent command here. */
  lemma CommentsKept(line: string, decodeCmd: string -> Option<string>, ts: int, exitCode: int, now: int)
    requires decodeCmd(Strip(line)).Some?
    requires var cmd := Strip(decodeCmd(Strip(line)).value);
      && CleanCommand(cmd) != "" && CleanCommand(cmd)[0] == '#'
      && !Contains(cmd, "nextcmd") && !Contains(cmd, "main.py")
    ensures CmdOf(line, decodeCmd).Some?
    ensures Segmenter.Accept(Segmenter.Decoded(decodeCmd(Strip(line)).value, ts, exitCode), now).None?
  {
    var raw := decodeCmd(Strip(line)).value;
    CleanCommandStrip(raw);
    Segmenter.AcceptIff(Segmenter.Decoded(raw, ts, exitCode), now);
  }
}
