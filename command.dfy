/** `LocalWorldModel._clean_command` of src/nxcmd/model.py: drop a shell
    history line number in front of a command and collapse whitespace. The
    cleaner of model.py and `clean_command` of src/nxcmd/cli.py are the
    same code, so this one definition stands for all three. */
module Command {
  import opened PyStr

  /** The words of a command once a leading history number is dropped: the
      first word goes only when it is all digits and more words follow. */
  function DropLineNumber(words: seq<string>): seq<string> {
    if |words| > 1 && IsDigits(words[0]) then words[1..] else words
  }

  function CleanCommand(raw: string): string {
    var parts := Split(raw);
    var cleaned := if |parts| > 0 && IsDigits(parts[0]) && |parts| > 1 then Join(parts[1..]) else raw;
    Join(Split(cleaned))
  }

  /** The cleaned command is the remaining words joined by single spaces: no
      leading, trailing or doubled space and no other whitespace. */
  lemma CleanCommandSpec(raw: string)
    ensures CleanCommand(raw) == Join(DropLineNumber(Split(raw)))
    ensures Split(CleanCommand(raw)) == DropLineNumber(Split(raw))
    ensures WellSpaced(CleanCommand(raw))
  {
    var parts := Split(raw);
    if |parts| > 1 && IsDigits(parts[0]) {
      assert AllTokens(parts[1..]) by {
        forall k | 0 <= k < |parts[1..]| ensures IsToken(parts[1..][k]) {
          assert parts[1..][k] == parts[k + 1];
        }
      }
      SplitJoin(parts[1..]);
    }
    var words := DropLineNumber(parts);
    assert AllTokens(words) by {
      forall k | 0 <= k < |words| ensures IsToken(words[k]) {
        if words != parts { assert words[k] == parts[k + 1]; }
      }
    }
    SplitJoin(words);
    JoinWellSpaced(words);
  }

  /** A command cleans to the empty string exactly when it is all whitespace. */
  lemma CleanCommandEmpty(raw: string)
    ensures CleanCommand(raw) == "" <==> Split(raw) == []
  {
    CleanCommandSpec(raw);
    var words := DropLineNumber(Split(raw));
    JoinEmptyIff(words);
    assert words == [] <==> Split(raw) == [];
  }

  /** Cleaning leaves a command unchanged exactly when it is already well
      spaced and does not start with a line number. */
  lemma CleanCommandFixed(raw: string)
    ensures CleanCommand(raw) == raw <==> WellSpaced(raw) && DropLineNumber(Split(raw)) == Split(raw)
  {
    CleanCommandSpec(raw);
    if WellSpaced(raw) && DropLineNumber(Split(raw)) == Split(raw) {
      JoinSplitWellSpaced(raw);
    }
  }

  /** The record field is stripped before cleaning; that strip is absorbed. */
  lemma CleanCommandStrip(raw: string)
    ensures CleanCommand(Strip(raw)) == CleanCommand(raw)
  {
    SplitStrip(raw);
    CleanCommandSpec(raw);
    CleanCommandSpec(Strip(raw));
  }

  /** Three words separated by any runs of whitespace split into those
      three words. */
  lemma SplitThreeWords(a: string, w1: string, b: string, w2: string, c: string)
    requires IsToken(a) && IsToken(b) && IsToken(c)
    requires w1 != [] && AllSpace(w1) && w2 != [] && AllSpace(w2)
    ensures Split(a + w1 + b + w2 + c) == [a, b, c]
  {
    var tail := b + w2 + c;
    AppendAssoc(a, w1, b, w2, c);
    assert (w1 + tail)[0] == w1[0];
    SplitWordThen(a, w1 + tail);
    SplitLeadingSpaces(w1, tail);
    SplitTwoWords(b, w2, c);
  }

  lemma SplitTwoWords(b: string, w: string, c: string)
    requires IsToken(b) && IsToken(c) && w != [] && AllSpace(w)
    ensures Split(b + w + c) == [b, c]
  {
    assert b + w + c == b + (w + c);
    assert (w + c)[0] == w[0];
    SplitWordThen(b, w + c);
    SplitLeadingSpaces(w, c);
    assert Join([c]) == c;
    SplitJoin([c]);
  }

  lemma AppendAssoc(a: string, x: string, b: string, y: string, c: string)
    ensures a + x + b + y + c == a + (x + (b + y + c))
  {
  }

  /** A history number in front of two words goes, whatever whitespace
      separates the three, and the two words are joined by one space. */
  lemma CleanNumbered(a: string, w1: string, b: string, w2: string, c: string)
    requires IsToken(a) && IsToken(b) && IsToken(c) && IsDigits(a)
    requires w1 != [] && AllSpace(w1) && w2 != [] && AllSpace(w2)
    ensures CleanCommand(a + w1 + b + w2 + c) == b + " " + c
  {
    SplitThreeWords(a, w1, b, w2, c);
    CleanCommandSpec(a + w1 + b + w2 + c);
    assert [a, b, c][1..] == [b, c];
    assert [b, c][1..] == [c];
  }

  lemma CleanOneWord(a: string)
    requires IsToken(a)
    ensures CleanCommand(a) == a
  {
    SplitJoin([a]);
    CleanCommandSpec(a);
  }

  /** The history line number in "825  source ~/.bashrc" goes; a lone
      number stays. */
  lemma CleanCommandExamples()
    ensures CleanCommand("825" + "  " + "source" + " " + "~/.bashrc") == "source" + " " + "~/.bashrc"
    ensures CleanCommand("825") == "825"
  {
    var a, b, c := "825", "source", "~/.bashrc";
    assert IsToken(a) && IsToken(b) && IsToken(c) && IsDigits(a);
    CleanNumbered(a, "  ", b, " ", c);
    CleanOneWord(a);
  }
}
