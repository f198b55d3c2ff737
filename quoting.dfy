/**
 * quote_string and panel_run_dialog_append_file_utf8 of
 * mate-panel/panel-run-dialog.c: a file name chosen in the file chooser (or
 * dropped on the entry) is appended to the command text as one shell word,
 * quoted only when it holds a character outside [a-zA-Z0-9] and -_./=:
 */
module Quoting {
  import opened Options
  import opened GLibStrings

  /** The characters quote_string lets through unquoted. */
  predicate IsSafeChar(c: char) {
    IsAsciiAlpha(c) || IsAsciiDigit(c) ||
    c == '-' || c == '_' || c == '.' || c == '/' || c == '=' || c == ':'
  }

  /** The scan of quote_string: no character of s needs quoting. */
  function AllSafe(s: string): (b: bool)
    ensures b <==> forall j :: 0 <= j < |s| ==> IsSafeChar(s[j])
  {
    if s == [] then true else IsSafeChar(s[0]) && AllSafe(s[1..])
  }

  /** quote_string: s itself when every character is safe, g_shell_quote (s) otherwise. */
  function QuoteString(s: string): (r: string)
    ensures r == s <==> AllSafe(s)
  {
    if AllSafe(s) then s else ShellQuote(s)
  }

  /** The text o with s in front of it. */
  function PrependTo(s: string, o: Option<string>): Option<string>
  {
    match o
    case None => None
    case Some(t) => Some(s + t)
  }

  /**
   * The value a POSIX shell gives to one word built from safe characters,
   * backslash escapes and single-quoted runs; None for anything else (an
   * unterminated quote, a blank that would split the word, or a character
   * that would need expansion rules this model does not cover).
   */
  function ShellWordValue(w: string, inQuotes: bool): Option<string>
  {
    if w == [] then (if inQuotes then None else Some([]))
    else if inQuotes then
      if w[0] == '\'' then ShellWordValue(w[1..], false)
      else PrependTo([w[0]], ShellWordValue(w[1..], true))
    else if w[0] == '\'' then ShellWordValue(w[1..], true)
    else if w[0] == '\\' then
      if |w| == 1 then None else PrependTo([w[1]], ShellWordValue(w[2..], false))
    else if IsSafeChar(w[0]) then PrependTo([w[0]], ShellWordValue(w[1..], false))
    else None
  }

  /** Inside a quoted run, the escaped body of s reads back as s. */
  lemma {:induction false} EscapedBodyReadsBack(s: string, rest: string)
    ensures ShellWordValue(EscapeQuotes(s) + "'" + rest, true) ==
            PrependTo(s, ShellWordValue(rest, false))
  {
    if s == [] {
      assert EscapeQuotes(s) + "'" + rest == "'" + rest;
      assert ("'" + rest)[1..] == rest;
      match ShellWordValue(rest, false)
      case None =>
      case Some(t) => assert s + t == t;
    } else {
      EscapedBodyReadsBack(s[1..], rest);
      EscapedHeadReadsBack(s, rest);
      PrependToConcat([s[0]], s[1..], ShellWordValue(rest, false));
      assert [s[0]] + s[1..] == s;
    }
  }

  /** Inside a quoted run, the escaped first character of s reads back as that character. */
  lemma EscapedHeadReadsBack(s: string, rest: string)
    requires s != []
    ensures ShellWordValue(EscapeQuotes(s) + "'" + rest, true) ==
            PrependTo([s[0]], ShellWordValue(EscapeQuotes(s[1..]) + "'" + rest, true))
  {
    var tail := EscapeQuotes(s[1..]) + "'" + rest;
    if s[0] == '\'' {
      assert EscapeQuotes(s) + "'" + rest == "'\\''" + tail;
      EscapedQuoteReadsBack(tail);
    } else {
      var w := [s[0]] + tail;
      assert EscapeQuotes(s) + "'" + rest == w;
      assert w[1..] == tail;
    }
  }

  /** Inside a quoted run, the escaped quote '\'' reads back as one quote character. */
  lemma EscapedQuoteReadsBack(tail: string)
    ensures ShellWordValue("'\\''" + tail, true) == PrependTo("'", ShellWordValue(tail, true))
  {
    var w := "'\\''" + tail;
    assert w[1..] == "\\''" + tail;
    assert w[1..][2..] == "'" + tail;
    assert ("'" + tail)[1..] == tail;
    assert ShellWordValue(w, true) == ShellWordValue(w[1..], false);
    assert ShellWordValue(w[1..], false) == PrependTo("'", ShellWordValue("'" + tail, false));
  }

  /** Putting b, then a, in front of a text is putting a + b in front of it. */
  lemma PrependToConcat(a: string, b: string, o: Option<string>)
    ensures PrependTo(a, PrependTo(b, o)) == PrependTo(a + b, o)
  {
    match o
    case None =>
    case Some(t) => assert a + (b + t) == (a + b) + t;
  }

  /** g_shell_quote round trip: the shell reads the quoted word back as the original text. */
  lemma ShellQuoteReadsBack(s: string)
    ensures ShellWordValue(ShellQuote(s), false) == Some(s)
  {
    var q := ShellQuote(s);
    assert q == "'" + (EscapeQuotes(s) + "'" + []);
    assert q[1..] == EscapeQuotes(s) + "'" + [];
    EscapedBodyReadsBack(s, []);
    assert s + [] == s;
  }

  /** A word of safe characters is read by the shell as itself. */
  lemma {:induction false} SafeWordReadsBack(s: string)
    requires AllSafe(s)
    ensures ShellWordValue(s, false) == Some(s)
  {
    if s != [] {
      SafeWordReadsBack(s[1..]);
      assert [s[0]] + s[1..] == s;
    }
  }

  /** quote_string always yields one shell word whose value is the file name. */
  lemma QuoteStringReadsBack(s: string)
    ensures ShellWordValue(QuoteString(s), false) == Some(s)
  {
    if AllSafe(s) { SafeWordReadsBack(s); } else { ShellQuoteReadsBack(s); }
  }

  /** panel_run_dialog_append_file_utf8: the entry text once the file name is appended. */
  function AppendFile(text: string, file: string): (r: string)
    ensures text <= r
    ensures r == text <==> file == [] || file[0] == '-'
  {
    if file == [] || file[0] == '-' then text
    else if text != [] then text + " " + QuoteString(file)
    else QuoteString(file)
  }

  /**
   * An empty name or one starting with '-' leaves the entry alone; any other
   * name is added after the old text and one blank (no blank for an empty
   * entry) as a single word that the shell reads back as exactly that name.
   */
  lemma AppendFileSpec(text: string, file: string)
    ensures file == [] || file[0] == '-' ==> AppendFile(text, file) == text
    ensures file != [] && file[0] != '-' ==>
      var lead := if text == [] then [] else text + " ";
      var r := AppendFile(text, file);
      |lead| <= |r| && r[..|lead|] == lead && ShellWordValue(r[|lead|..], false) == Some(file)
  {
    if file != [] && file[0] != '-' {
      var lead := if text == [] then [] else text + " ";
      var q := QuoteString(file);
      assert AppendFile(text, file) == lead + q;
      assert (lead + q)[..|lead|] == lead && (lead + q)[|lead|..] == q;
      QuoteStringReadsBack(file);
    }
  }
}
