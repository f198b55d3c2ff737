/**
 * The GLib string and path helpers that panel-run-dialog.c relies on, written
 * from their documented behaviour: g_path_get_basename, g_path_get_dirname,
 * g_path_is_absolute, g_build_filename (for a directory and one name),
 * g_strsplit with the delimiter " ", g_strchug, g_ascii_isspace,
 * g_shell_quote and g_uri_parse_scheme (section 3.1 of RFC 3986).
 */
module GLibStrings {
  import opened Options

  // ---------------------------------------------------------------------------
  // Characters

  /**
   * g_ascii_isspace: space, tab, newline, form feed, carriage return. GLib's
   * character table leaves vertical tab out, unlike isspace in the C locale.
   */
  predicate IsAsciiSpace(c: char) {
    c == ' ' || c == '\t' || c == '\n' || c == '\U{C}' || c == '\r'
  }

  predicate IsAsciiAlpha(c: char) {
    ('a' <= c <= 'z') || ('A' <= c <= 'Z')
  }

  predicate IsAsciiDigit(c: char) {
    '0' <= c <= '9'
  }

  /** The characters RFC 3986 allows after the first one of a scheme. */
  predicate IsSchemeChar(c: char) {
    IsAsciiAlpha(c) || IsAsciiDigit(c) || c == '+' || c == '-' || c == '.'
  }

  // ---------------------------------------------------------------------------
  // g_strchug

  /** g_strchug: the text with its leading ASCII white space removed. */
  function Chug(s: string): (r: string)
    ensures |r| <= |s| && r == s[|s| - |r|..]
    ensures r == [] || !IsAsciiSpace(r[0])
    ensures forall j :: 0 <= j < |s| - |r| ==> IsAsciiSpace(s[j])
  {
    if s != [] && IsAsciiSpace(s[0]) then Chug(s[1..]) else s
  }

  // ---------------------------------------------------------------------------
  // Paths

  /** g_path_is_absolute on a POSIX system. */
  predicate IsAbsolute(s: string) {
    |s| > 0 && s[0] == '/'
  }

  /** Length of s[..end] once its trailing '/' characters are dropped. */
  function TrimTrailingSlashes(s: string, end: nat): (n: nat)
    requires end <= |s|
    ensures n <= end
    ensures forall j :: n <= j < end ==> s[j] == '/'
    ensures n > 0 ==> s[n - 1] != '/'
    decreases end
  {
    if end > 0 && s[end - 1] == '/' then TrimTrailingSlashes(s, end - 1) else end
  }

  /** Index just after the last '/' of s[..end], or 0 when s[..end] has none. */
  function AfterLastSlash(s: string, end: nat): (i: nat)
    requires end <= |s|
    ensures i <= end
    ensures i > 0 ==> s[i - 1] == '/'
    ensures forall j :: i <= j < end ==> s[j] != '/'
    decreases end
  {
    if end == 0 then 0 else if s[end - 1] == '/' then end else AfterLastSlash(s, end - 1)
  }

  /**
   * g_path_get_basename: "." for the empty string, "/" for a string of
   * slashes only, otherwise the text after the last '/' once trailing '/'
   * characters are ignored.
   */
  function Basename(s: string): (r: string)
    ensures r != []
    ensures '/' in r ==> r == "/"
  {
    if s == [] then "."
    else
      var n := TrimTrailingSlashes(s, |s|);
      if n == 0 then "/"
      else
        var r := s[AfterLastSlash(s, n)..n];
        assert r[|r| - 1] == s[n - 1];
        r
  }

  /** The basename is "/" exactly for a non-empty path made of slashes only. */
  lemma BasenameOfSlashes(s: string)
    ensures Basename(s) == "/" <==> s != [] && forall j :: 0 <= j < |s| ==> s[j] == '/'
  {
  }

  /** The basename of a name preceded by a directory and followed by slashes is the name. */
  lemma BasenameOfPath(dir: string, name: string, tail: string)
    requires name != [] && '/' !in name
    requires dir == [] || dir[|dir| - 1] == '/'
    requires forall j :: 0 <= j < |tail| ==> tail[j] == '/'
    ensures Basename(dir + name + tail) == name
  {
    var s := dir + name + tail;
    var m := |dir| + |name|;
    assert forall j :: |dir| <= j < m ==> s[j] == name[j - |dir|];
    assert forall j :: m <= j < |s| ==> s[j] == tail[j - m];
    assert dir != [] ==> s[|dir| - 1] == dir[|dir| - 1];
    assert s[m - 1] == name[|name| - 1] && name[|name| - 1] in name;
    var n := TrimTrailingSlashes(s, |s|);
    assert n == m;
    var i := AfterLastSlash(s, n);
    assert i == |dir|;
    assert s[i..n] == name;
  }

  /** Index of the first character GLib keeps out of the dirname: it walks back from k over '/' but not past index 0. */
  function BackOverSlashes(s: string, k: nat): (j: nat)
    requires k < |s|
    ensures j <= k
    ensures j > 0 ==> s[j] != '/'
    ensures forall t :: j < t <= k ==> s[t] == '/'
    decreases k
  {
    if k > 0 && s[k] == '/' then BackOverSlashes(s, k - 1) else k
  }

  /**
   * g_path_get_dirname: "." when s has no '/'; otherwise everything before
   * the last '/' with the run of slashes in front of it dropped, keeping a
   * lone leading "/".
   */
  function Dirname(s: string): (r: string)
    ensures r != []
    ensures '/' !in s ==> r == "."
    ensures IsAbsolute(s) ==> IsAbsolute(r)
  {
    var i := AfterLastSlash(s, |s|);
    if i == 0 then "."
    else s[..BackOverSlashes(s, i - 1) + 1]
  }

  /** The dirname of dir + "/" + name is dir, for a name without '/' and a dir not ending in '/'. */
  lemma DirnameOfPath(dir: string, name: string)
    requires '/' !in name
    requires dir != [] && dir[|dir| - 1] != '/'
    ensures Dirname(dir + "/" + name) == dir
  {
    var s := dir + "/" + name;
    assert forall j :: |dir| < j < |s| ==> s[j] == name[j - |dir| - 1];
    assert s[|dir|] == '/' && s[|dir| - 1] == dir[|dir| - 1];
    var i := AfterLastSlash(s, |s|);
    assert i == |dir| + 1;
    var j := BackOverSlashes(s, i - 1);
    assert j == |dir| - 1;
    assert s[..j + 1] == dir;
  }

  /**
   * g_build_filename for a directory and one further element: dir, then a
   * '/' unless dir already ends in one, then name; an empty element is
   * skipped. The result starts with dir and ends with name.
   */
  function BuildFilename(dir: string, name: string): (r: string)
    ensures |r| >= |dir| + |name|
    ensures dir == [] ==> r == name
    ensures name == [] ==> r == dir
    ensures dir != [] && name != [] ==>
      r[..|dir|] == dir && r[|r| - |name|..] == name &&
      |r| == |dir| + |name| + (if dir[|dir| - 1] == '/' then 0 else 1) &&
      (dir[|dir| - 1] != '/' ==> r[|dir|] == '/')
  {
    if dir == [] then name
    else if name == [] then dir
    else if dir[|dir| - 1] == '/' then dir + name
    else dir + "/" + name
  }

  // ---------------------------------------------------------------------------
  // g_strsplit (s, " ", -1)

  /** The pieces of s between single spaces; never empty (used for non-empty s). */
  function Pieces(s: string): (p: seq<string>)
    ensures |p| >= 1
  {
    if s == [] then [[]]
    else
      var rest := Pieces(s[1..]);
      if s[0] == ' ' then [[]] + rest else [[s[0]] + rest[0]] + rest[1..]
  }

  /** g_strsplit (s, " ", -1): the empty string gives an empty vector. */
  function SplitOnSpace(s: string): (tokens: seq<string>)
    ensures s == [] <==> tokens == []
  {
    if s == [] then [] else Pieces(s)
  }

  /** Joining pieces back with single spaces. */
  function JoinWithSpace(p: seq<string>): string
  {
    if p == [] then [] else if |p| == 1 then p[0] else p[0] + " " + JoinWithSpace(p[1..])
  }

  /** g_strsplit loses nothing: the pieces joined with " " give the input back. */
  lemma {:induction false} PiecesJoin(s: string)
    ensures JoinWithSpace(Pieces(s)) == s
  {
    if s != [] {
      PiecesJoin(s[1..]);
      var rest := Pieces(s[1..]);
      var p := Pieces(s);
      if s[0] == ' ' {
        assert p[0] == [] && p[1..] == rest;
        assert JoinWithSpace(p) == " " + JoinWithSpace(rest);
      } else {
        assert p[0] == [s[0]] + rest[0];
        assert p[1..] == rest[1..];
        if |rest| > 1 {
          assert JoinWithSpace(rest) == rest[0] + " " + JoinWithSpace(rest[1..]);
        }
        assert JoinWithSpace(p) == [s[0]] + JoinWithSpace(rest);
      }
      assert s == [s[0]] + s[1..];
    }
  }

  /** No piece of g_strsplit holds a space. */
  lemma {:induction false} PiecesNoSpace(s: string)
    ensures forall k :: 0 <= k < |Pieces(s)| ==> ' ' !in Pieces(s)[k]
  {
    if s != [] {
      PiecesNoSpace(s[1..]);
      var rest := Pieces(s[1..]);
      var p := Pieces(s);
      forall k | 0 <= k < |p| ensures ' ' !in p[k] {
        if s[0] == ' ' {
          if k > 0 { assert p[k] == rest[k - 1]; }
        } else {
          if k > 0 { assert p[k] == rest[k]; }
        }
      }
    }
  }

  /** The first piece is the text before the first space (all of s when it has none). */
  lemma {:induction false} FirstPiece(s: string)
    ensures |Pieces(s)[0]| <= |s| && Pieces(s)[0] == s[..|Pieces(s)[0]|]
    ensures ' ' !in Pieces(s)[0]
    ensures |Pieces(s)[0]| < |s| ==> s[|Pieces(s)[0]|] == ' '
  {
    if s != [] {
      FirstPiece(s[1..]);
    }
  }

  // ---------------------------------------------------------------------------
  // g_shell_quote

  /** The body of a single-quoted string: each ' becomes '\'' (close, escaped quote, reopen). */
  function EscapeQuotes(s: string): (r: string)
    ensures |r| >= |s|
  {
    if s == [] then []
    else (if s[0] == '\'' then "'\\''" else [s[0]]) + EscapeQuotes(s[1..])
  }

  /** g_shell_quote: s in single quotes, each single quote of s written as '\''. */
  function ShellQuote(s: string): (r: string)
    ensures |r| >= |s| + 2
    ensures r[0] == '\'' && r[|r| - 1] == '\''
  {
    "'" + EscapeQuotes(s) + "'"
  }

  // ---------------------------------------------------------------------------
  // g_uri_parse_scheme

  /** Index of the ':' that ends a scheme whose characters from i on are scheme characters. */
  function SchemeEnd(s: string, i: nat): (k: Option<nat>)
    requires i <= |s|
    ensures k.Some? ==> i <= k.value < |s| && s[k.value] == ':'
    ensures k.Some? ==> forall j :: i <= j < k.value ==> IsSchemeChar(s[j])
    decreases |s| - i
  {
    if i == |s| then None
    else if s[i] == ':' then Some(i)
    else if IsSchemeChar(s[i]) then SchemeEnd(s, i + 1)
    else None
  }

  /** g_uri_parse_scheme: the scheme when s starts with ALPHA *( ALPHA / DIGIT / "+" / "-" / "." ) ":". */
  function ParseScheme(s: string): (r: Option<string>)
    ensures r.Some? ==> |r.value| < |s| && s[|r.value|] == ':' && r.value == s[..|r.value|] && IsAsciiAlpha(s[0])
  {
    if s == [] || !IsAsciiAlpha(s[0]) then None
    else match SchemeEnd(s, 1)
      case None => None
      case Some(k) => Some(s[..k])
  }

  /** A scheme is found exactly when the text has the shape RFC 3986 section 3.1 gives one. */
  lemma ParseSchemeIff(s: string)
    ensures ParseScheme(s).Some? <==>
      exists k :: 1 <= k < |s| && s[k] == ':' && IsAsciiAlpha(s[0]) &&
        forall j :: 1 <= j < k ==> IsSchemeChar(s[j])
  {
    if exists k :: 1 <= k < |s| && s[k] == ':' && IsAsciiAlpha(s[0]) &&
        forall j :: 1 <= j < k ==> IsSchemeChar(s[j]) {
      var k :| 1 <= k < |s| && s[k] == ':' && IsAsciiAlpha(s[0]) &&
        forall j :: 1 <= j < k ==> IsSchemeChar(s[j]);
      SchemeEndFinds(s, 1, k);
    }
  }

  lemma {:induction false} SchemeEndFinds(s: string, i: nat, k: nat)
    requires i <= k < |s| && s[k] == ':'
    requires forall j :: i <= j < k ==> IsSchemeChar(s[j])
    ensures SchemeEnd(s, i).Some?
    decreases k - i
  {
    if i < k {
      assert s[i] != ':' by { assert IsSchemeChar(s[i]); }
      SchemeEndFinds(s, i + 1, k);
    }
  }
}
