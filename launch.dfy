/**
 * Running what was typed: command_is_executable,
 * panel_run_dialog_launch_command and panel_run_dialog_execute of
 * mate-panel/panel-run-dialog.c.
 *
 * The text is trimmed, converted to the locale encoding and, when it is an
 * absolute path or has no URI scheme, parsed into an argument vector whose
 * leading "~/" is replaced by the home directory; the program is launched
 * when the first argument names a regular executable file. Otherwise, or
 * when spawning fails, the text is shown as a URI or file. Only a command
 * that was launched or shown is saved in the history.
 *
 * Everything this code asks of the system is part of the Environment value:
 * the home directory, the locale conversion, g_shell_parse_argv,
 * g_find_program_in_path, the file tests, the terminal prefix, and whether
 * g_spawn_async and panel_show_uri succeed.
 */
module Launch {
  import opened Options
  import opened GLibStrings
  import History

  datatype Environment = Environment(
    home: string,
    toLocale: string -> Option<string>,
    parseArgv: string -> Option<seq<string>>,
    findInPath: string -> Option<string>,
    regularFiles: set<string>,
    executableFiles: set<string>,
    inTerminal: bool,
    terminalPrefix: seq<string>,
    spawnSucceeds: bool,
    showSucceeds: bool)

  // ---------------------------------------------------------------------------
  // Tilde expansion

  /**
   * g_build_filename (g_get_home_dir (), "/"): the home directory with its
   * trailing slashes replaced by exactly one '/'. A home made only of
   * slashes keeps them all, and the "/" element adds one more, since GLib
   * keeps the leading separators of the first element and the trailing ones
   * of the last.
   */
  function HomePath(home: string): (r: string)
    ensures r != [] && r[|r| - 1] == '/'
    ensures (exists j :: 0 <= j < |home| && home[j] != '/') ==>
      |r| >= 2 && r[|r| - 2] != '/' && r[..|r| - 1] <= home
    ensures (forall j :: 0 <= j < |home| ==> home[j] == '/') ==> r == home + "/"
  {
    var n := TrimTrailingSlashes(home, |home|);
    if n == 0 then home + "/" else home[..n] + "/"
  }

  /** g_regex_replace_literal with "^~/": a leading "~/" becomes the home path, nothing else changes. */
  function ExpandTilde(arg: string, home: string): (r: string)
    ensures r != arg ==> |arg| >= 2 && arg[..2] == "~/"
    ensures |arg| >= 2 && arg[..2] == "~/" ==> |r| > |arg| - 2 && r[|r| - (|arg| - 2)..] == arg[2..]
  {
    if |arg| >= 2 && arg[0] == '~' && arg[1] == '/' then HomePath(home) + arg[2..] else arg
  }

  /** The replacement loop over argv in command_is_executable, in place. */
  method ExpandTildes(argv: array<string>, home: string)
    modifies argv
    ensures forall i :: 0 <= i < argv.Length ==> argv[i] == ExpandTilde(old(argv[i]), home)
  {
    var i := 0;
    while i < argv.Length
      invariant 0 <= i <= argv.Length
      invariant forall j :: 0 <= j < i ==> argv[j] == ExpandTilde(old(argv[j]), home)
      invariant forall j :: i <= j < argv.Length ==> argv[j] == old(argv[j])
    {
      argv[i] := ExpandTilde(argv[i], home);
      i := i + 1;
    }
  }

  /**
   * "~/rest" becomes the home directory, one '/', and rest; an argument not
   * starting with "~/" is left alone.
   */
  lemma ExpandTildeSpec(home: string, rest: string, arg: string)
    requires home != [] && home[|home| - 1] != '/'
    ensures ExpandTilde("~/" + rest, home) == home + "/" + rest
    ensures !(|arg| >= 2 && arg[..2] == "~/") ==> ExpandTilde(arg, home) == arg
  {
    assert TrimTrailingSlashes(home, |home|) == |home|;
    assert ("~/" + rest)[2..] == rest;
    assert home[..|home|] == home;
    if |arg| >= 2 && arg[0] == '~' && arg[1] == '/' {
      assert arg[..2] == "~/";
    }
  }

  /** With a home directory that does not itself start with '~', expanding twice changes nothing more. */
  lemma ExpandTildeIdempotent(arg: string, home: string)
    requires home == [] || home[0] != '~'
    ensures ExpandTilde(ExpandTilde(arg, home), home) == ExpandTilde(arg, home)
  {
    var h := HomePath(home);
    var n := TrimTrailingSlashes(home, |home|);
    if n > 0 {
      assert h[0] == home[0];
    } else {
      assert h[0] == (home + "/")[0];
    }
  }

  /** With the home directory "/", "~/bin/x" names "//bin/x": the slash of the home and the one added are both kept. */
  lemma RootHomeExample()
    ensures HomePath("/") == "//"
    ensures ExpandTilde("~/bin/x", "/") == "//bin/x"
  {
    assert TrimTrailingSlashes("/", 1) == 0;
    assert "~/bin/x"[2..] == "bin/x";
  }

  /** "~/bin/foo" with the home directory /home/user names /home/user/bin/foo. */
  lemma TildeExample()
    ensures ExpandTilde("~/bin/foo", "/home/user") == "/home/user/bin/foo"
  {
    assert TrimTrailingSlashes("/home/user", 10) == 10;
    assert HomePath("/home/user") == "/home/user/";
    ExpandTildeSpec("/home/user", "bin/foo", []);
    assert "~/bin/foo" == "~/" + "bin/foo";
  }

  // ---------------------------------------------------------------------------
  // command_is_executable

  /** The argument vector command_is_executable hands back, or None when it returns FALSE. */
  function ExecutableArgv(command: string, env: Environment): (r: Option<seq<string>>)
    ensures r.Some? ==> env.parseArgv(command).Some? && |r.value| == |env.parseArgv(command).value| > 0
  {
    match env.parseArgv(command)
    case None => None
    case Some(parsed) =>
      if parsed == [] then None
      else
        var argv := seq(|parsed|, i requires 0 <= i < |parsed| => ExpandTilde(parsed[i], env.home));
        match env.findInPath(argv[0])
        case None => None
        case Some(path) =>
          if path in env.executableFiles && path in env.regularFiles then Some(argv) else None
  }

  /** command_is_executable: parse, expand "~/" in every argument, look the program up and test the file. */
  method CommandIsExecutable(command: string, env: Environment) returns (r: Option<seq<string>>)
    ensures r == ExecutableArgv(command, env)
  {
    var parsed := env.parseArgv(command);
    if parsed.None? || parsed.value == [] {
      return None;
    }
    var argv := new string[|parsed.value|];
    var k := 0;
    while k < argv.Length
      invariant 0 <= k <= argv.Length
      invariant forall j :: 0 <= j < k ==> argv[j] == parsed.value[j]
    {
      argv[k] := parsed.value[k];
      k := k + 1;
    }
    ExpandTildes(argv, env.home);
    assert argv[..] == seq(|parsed.value|, i requires 0 <= i < |parsed.value| => ExpandTilde(parsed.value[i], env.home));
    var path := env.findInPath(argv[0]);
    if path.None? {
      return None;
    }
    if !(path.value in env.executableFiles) || !(path.value in env.regularFiles) {
      return None;
    }
    r := Some(argv[..]);
  }

  /**
   * A command is accepted exactly when it parses to a non-empty vector whose
   * first argument, with "~/" expanded, is found as a regular, executable
   * file; then every argument is the parsed one with "~/" expanded.
   */
  lemma ExecutableArgvSpec(command: string, env: Environment)
    ensures ExecutableArgv(command, env).Some? ==>
      var argv := ExecutableArgv(command, env).value;
      env.parseArgv(command).Some? && |argv| == |env.parseArgv(command).value| > 0 &&
      (forall i :: 0 <= i < |argv| ==> argv[i] == ExpandTilde(env.parseArgv(command).value[i], env.home)) &&
      env.findInPath(argv[0]).Some? &&
      env.findInPath(argv[0]).value in env.regularFiles &&
      env.findInPath(argv[0]).value in env.executableFiles
    ensures env.parseArgv(command).None? ==> ExecutableArgv(command, env).None?
    ensures (env.parseArgv(command).Some? && env.parseArgv(command).value != [] &&
             var program := ExpandTilde(env.parseArgv(command).value[0], env.home);
             env.findInPath(program).Some? &&
             env.findInPath(program).value in env.regularFiles &&
             env.findInPath(program).value in env.executableFiles) ==>
      ExecutableArgv(command, env).Some?
  {
  }

  // ---------------------------------------------------------------------------
  // panel_run_dialog_execute

  /** How a press of Run ends. */
  datatype Outcome =
    | Blank                                // only blanks typed: nothing happens
    | NotConvertible                       // the locale conversion failed: an error dialog
    | Launched(argv: seq<string>)          // the program was spawned
    | Shown(spawnFailed: bool)             // the text was opened as a URI or file
    | Failed(spawnFailed: bool)            // nothing worked; the dialog stays open

  /** The history is written and the dialog closed. */
  predicate Succeeded(o: Outcome) {
    o.Launched? || o.Shown?
  }

  /** The text is worth trying as a program: an absolute path, or no URI scheme. */
  predicate MayBeProgram(disk: string) {
    IsAbsolute(disk) || ParseScheme(disk).None?
  }

  /** What panel_run_dialog_execute does with the typed text. */
  function ExecuteOutcome(text: string, env: Environment): (r: Outcome)
    ensures r == Blank <==> Chug(text) == []
    ensures r == NotConvertible <==> Chug(text) != [] && env.toLocale(Chug(text)).None?
  {
    var command := Chug(text);
    if command == [] then Blank
    else
      match env.toLocale(command)
      case None => NotConvertible
      case Some(disk) => RunOrShowOutcome(disk, env)
  }

  /** The text in the locale's encoding is run as a program if it may be one, else (or when that fails) shown. */
  function RunOrShowOutcome(disk: string, env: Environment): (r: Outcome)
    ensures r.Launched? || r.Shown? || r.Failed?
    ensures r.Shown? ==> env.showSucceeds
  {
    var argv := if MayBeProgram(disk) then ExecutableArgv(disk, env) else None;
    if argv.Some? && env.spawnSucceeds then
      Launched((if env.inTerminal then env.terminalPrefix else []) + argv.value)
    else
      var spawnFailed := argv.Some?;
      if env.showSucceeds then Shown(spawnFailed) else Failed(spawnFailed)
  }

  /**
   * What a press of Run promises: nothing for blank text; a program is
   * launched only from a text that is an absolute path or has no URI
   * scheme, and only when it names a regular executable file; the argument
   * vector is the parsed text with "~/" expanded, after the terminal prefix
   * when the terminal box is ticked; a failed spawn falls back to showing the
   * text as a URI.
   */
  lemma ExecuteOutcomeSpec(text: string, env: Environment)
    ensures ExecuteOutcome(text, env) == Blank <==> Chug(text) == []
    ensures ExecuteOutcome(text, env).Launched? ==>
      var disk := env.toLocale(Chug(text)).value;
      env.toLocale(Chug(text)).Some? && MayBeProgram(disk) && env.spawnSucceeds &&
      ExecutableArgv(disk, env).Some? &&
      ExecuteOutcome(text, env).argv ==
        (if env.inTerminal then env.terminalPrefix else []) + ExecutableArgv(disk, env).value
    ensures ExecuteOutcome(text, env).Shown? ==> env.showSucceeds
    ensures Chug(text) != [] && env.toLocale(Chug(text)).Some? && !ExecuteOutcome(text, env).Launched? ==>
      (ExecuteOutcome(text, env).Shown? <==> env.showSucceeds)
    ensures ExecuteOutcome(text, env).Shown? || ExecuteOutcome(text, env).Failed? ==>
      var disk := env.toLocale(Chug(text)).value;
      env.toLocale(Chug(text)).Some? &&
      ExecuteOutcome(text, env).spawnFailed == (MayBeProgram(disk) && ExecutableArgv(disk, env).Some?)
    ensures (Chug(text) != [] && env.toLocale(Chug(text)).Some? &&
             !MayBeProgram(env.toLocale(Chug(text)).value)) ==> !ExecuteOutcome(text, env).Launched?
  {
    var command := Chug(text);
    if command != [] && env.toLocale(command).Some? {
      RunOrShowSpec(env.toLocale(command).value, env);
    }
  }

  /**
   * The run-or-show step launches exactly a possible program that is
   * accepted and spawns; anything else is shown exactly when showing works,
   * and the outcome records whether a spawn was tried and failed.
   */
  lemma RunOrShowSpec(disk: string, env: Environment)
    ensures RunOrShowOutcome(disk, env) != Blank && RunOrShowOutcome(disk, env) != NotConvertible
    ensures RunOrShowOutcome(disk, env).Launched? <==>
      MayBeProgram(disk) && env.spawnSucceeds && ExecutableArgv(disk, env).Some?
    ensures RunOrShowOutcome(disk, env).Launched? ==>
      RunOrShowOutcome(disk, env).argv ==
        (if env.inTerminal then env.terminalPrefix else []) + ExecutableArgv(disk, env).value
    ensures RunOrShowOutcome(disk, env).Shown? ==> env.showSucceeds
    ensures !RunOrShowOutcome(disk, env).Launched? ==> (RunOrShowOutcome(disk, env).Shown? <==> env.showSucceeds)
    ensures RunOrShowOutcome(disk, env).Shown? || RunOrShowOutcome(disk, env).Failed? ==>
      RunOrShowOutcome(disk, env).spawnFailed == (MayBeProgram(disk) && ExecutableArgv(disk, env).Some?)
  {
  }

  /** A text with a URI scheme that is not an absolute path, such as "http://host", is never run as a program. */
  lemma UriIsNeverLaunched(text: string, env: Environment, disk: string)
    requires Chug(text) != [] && env.toLocale(Chug(text)) == Some(disk)
    requires !IsAbsolute(disk)
    requires exists k :: (1 <= k < |disk| && disk[k] == ':' && IsAsciiAlpha(disk[0]) &&
                          forall j :: 1 <= j < k ==> IsSchemeChar(disk[j]))
    ensures !ExecuteOutcome(text, env).Launched?
  {
    ParseSchemeIff(disk);
    ExecuteOutcomeSpec(text, env);
  }

  /**
   * panel_run_dialog_launch_command: command_is_executable, the terminal
   * prefix, then g_spawn_async. accepted tells the early FALSE of a rejected
   * command apart from a spawn that failed after the command was accepted.
   */
  method LaunchCommand(disk: string, env: Environment) returns (launched: Option<seq<string>>, accepted: bool)
    ensures accepted <==> ExecutableArgv(disk, env).Some?
    ensures ExecutableArgv(disk, env).None? ==> launched.None?
    ensures ExecutableArgv(disk, env).Some? ==>
      launched == if env.spawnSucceeds then
        Some((if env.inTerminal then env.terminalPrefix else []) + ExecutableArgv(disk, env).value)
      else None
  {
    var argv := CommandIsExecutable(disk, env);
    if argv.None? {
      return None, false;
    }
    accepted := true;
    var full := argv.value;
    if env.inTerminal {
      full := env.terminalPrefix + full;
    } else {
      assert [] + full == full;
    }
    if env.spawnSucceeds {
      launched := Some(full);
    } else {
      launched := None;
    }
  }

  /** The rest of panel_run_dialog_execute once the text is in the locale's encoding: launch it, or else show it. */
  method RunOrShow(disk: string, env: Environment) returns (outcome: Outcome)
    ensures outcome == RunOrShowOutcome(disk, env)
  {
    var launched: Option<seq<string>> := None;
    var spawnFailed := false;
    if IsAbsolute(disk) || ParseScheme(disk).None? {
      var accepted;
      launched, accepted := LaunchCommand(disk, env);
      spawnFailed := accepted && launched.None?;
    }
    if launched.Some? {
      outcome := Launched(launched.value);
    } else if env.showSucceeds {
      outcome := Shown(spawnFailed);
    } else {
      outcome := Failed(spawnFailed);
    }
  }

  /**
   * panel_run_dialog_execute: runs or shows the text, and saves the trimmed
   * command in the history only when one of them succeeded.
   */
  method Execute(text: string, env: Environment, history: History.HistorySettings, displayed: seq<string>)
    returns (outcome: Outcome)
    modifies history`items
    ensures outcome == ExecuteOutcome(text, env)
    ensures Succeeded(outcome) ==>
      history.items == History.Saved(displayed, Chug(text), history.maxSize, history.reverse)
    ensures !Succeeded(outcome) ==> history.items == old(history.items)
  {
    var command := Chug(text);
    if command == [] {
      return Blank;
    }
    var disk := env.toLocale(command);
    if disk.None? {
      return NotConvertible;
    }
    outcome := RunOrShow(disk.value, env);
    if Succeeded(outcome) {
      history.SaveRecentPrograms(displayed, command);
    }
  }
}
