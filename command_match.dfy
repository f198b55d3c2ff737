/**
 * fuzzy_command_match of mate-panel/panel-run-dialog.c: does the text typed
 * in the run dialog name the command line of a program-list entry, either
 * byte for byte or by the basename of its first space-separated word?
 */
module CommandMatch {
  import opened Options
  import opened GLibStrings

  /** The gboolean result of fuzzy_command_match and the value it leaves in *fuzzy. */
  datatype MatchResult = MatchResult(matched: bool, fuzzy: bool)

  /** g_path_get_basename of tokens[0] of g_strsplit (cmd, " ", -1); None when the vector is empty. */
  function FirstWordBasename(cmd: string): (w: Option<string>)
    ensures w.Some? <==> cmd != []
  {
    var tokens := SplitOnSpace(cmd);
    if tokens == [] then None else Some(Basename(tokens[0]))
  }

  /** fuzzy_command_match (cmd1, cmd2, &fuzzy). */
  function FuzzyCommandMatch(cmd1: string, cmd2: string): (r: MatchResult)
    ensures r.fuzzy ==> r.matched
  {
    if cmd1 == cmd2 then MatchResult(true, false)
    else
      var w1 := FirstWordBasename(cmd1);
      if w1.None? then MatchResult(false, false)
      else
        var w2 := FirstWordBasename(cmd2);
        if w2.None? then MatchResult(false, false)
        else if w1.value == w2.value then MatchResult(true, true)
        else MatchResult(false, false)
  }

  /** w is the text of cmd before its first space (all of cmd when it has none). */
  predicate IsCommandWord(cmd: string, w: string) {
    |w| <= |cmd| && w == cmd[..|w|] && ' ' !in w && (|w| == |cmd| || cmd[|w|] == ' ')
  }

  /** Each command has exactly one such word. */
  lemma CommandWordUnique(cmd: string, w1: string, w2: string)
    requires IsCommandWord(cmd, w1) && IsCommandWord(cmd, w2)
    ensures w1 == w2
  {
  }

  /** The first word g_strsplit yields is the text before the first space. */
  lemma FirstTokenIsCommandWord(cmd: string)
    requires cmd != []
    ensures IsCommandWord(cmd, SplitOnSpace(cmd)[0])
  {
    FirstPiece(cmd);
  }

  /**
   * What fuzzy_command_match decides: an exact match, not fuzzy, iff the two
   * strings are equal; otherwise a fuzzy match iff both are non-empty and the
   * basenames of their words before the first space are equal; no match else.
   */
  lemma FuzzyCommandMatchSpec(cmd1: string, cmd2: string, w1: string, w2: string)
    requires IsCommandWord(cmd1, w1) && IsCommandWord(cmd2, w2)
    ensures FuzzyCommandMatch(cmd1, cmd2) == MatchResult(true, false) <==> cmd1 == cmd2
    ensures FuzzyCommandMatch(cmd1, cmd2).fuzzy <==>
      cmd1 != cmd2 && cmd1 != [] && cmd2 != [] && Basename(w1) == Basename(w2)
    ensures FuzzyCommandMatch(cmd1, cmd2).matched <==>
      cmd1 == cmd2 || (cmd1 != [] && cmd2 != [] && Basename(w1) == Basename(w2))
  {
    if cmd1 != [] {
      FirstTokenIsCommandWord(cmd1);
      CommandWordUnique(cmd1, w1, SplitOnSpace(cmd1)[0]);
    }
    if cmd2 != [] {
      FirstTokenIsCommandWord(cmd2);
      CommandWordUnique(cmd2, w2, SplitOnSpace(cmd2)[0]);
    }
  }

  /** The match and its fuzziness do not depend on the order of the arguments. */
  lemma FuzzyCommandMatchSymmetric(cmd1: string, cmd2: string)
    ensures FuzzyCommandMatch(cmd1, cmd2) == FuzzyCommandMatch(cmd2, cmd1)
  {
  }
}
