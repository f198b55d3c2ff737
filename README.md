# mate-panel "Run Application" dialog — a Dafny model

This project models the sequential logic of the MATE panel's Run Application
dialog (`mate-panel/panel-run-dialog.c`). The GTK widgets, GSettings, the menu
tree and the file system are stripped away. What is left is the logic that
decides what the dialog shows and does:

- **Command matching** (`command_match.dfy`): `fuzzy_command_match`, with the
  GLib string helpers it relies on (`glib_strings.dfy`: `g_strchug`,
  `g_path_get_basename`, `g_path_get_dirname`, `g_build_filename`,
  `g_strsplit` on a space, `g_shell_quote`, `g_uri_parse_scheme`). These
  helpers are written from GLib's documented behaviour.
- **The program list** (`applications.dfy`, `program_list.dfy`):
  - the duplicate-stripping loop of `panel_run_dialog_add_items_idle`;
  - the rows of the list store and the accelerator table that sends
    Alt+1 … Alt+0 to a position in the filtered list;
  - the filter and selection pass of `panel_run_dialog_find_command_idle`;
  - the empty-text branch of `combobox_changed`;
  - `panel_run_dialog_accelerator_key_pressed`.
- **The command history** (`history.dfy`): the three history keys as fields
  of a class. Loading fills the drop-down; saving rebuilds the key in an
  array and reverses it in place.
- **Exec-line field codes** (`field_codes.dfy`): `remove_parameters`, with
  its loop that never ends on a stray `%`.
- **File-name quoting** (`quoting.dfy`): `quote_string` and
  `panel_run_dialog_append_file_utf8`, and a reading of the result by a
  POSIX shell.
- **Tab completion** (`completion.dfy`): `fill_files_from`,
  `fill_executables` and `panel_run_dialog_update_completion` over a file
  system given as a value. As in the C code, the prefix compared and
  recorded is the first byte of the UTF-8 text, not the first character.
- **Running the text** (`launch.dfy`):
  - the "~/" expansion and file tests of `command_is_executable`;
  - `panel_run_dialog_launch_command`;
  - `panel_run_dialog_execute`, with the launch-or-show decision and the
    rule that only a successful command is saved.

Everything the code asks of the outside world is a parameter. That covers
the case-insensitive substring test, the locale conversion, argument
parsing, `$PATH` lookup, file tests, spawning and URI display.

## Model

| member | source | states |
|---|---|---|
| GLibStrings.Chug | mate-panel/panel-run-dialog.c:495 | g_strchug drops exactly the leading ASCII blanks: the result is a suffix of the text, does not start with a blank, and everything cut off was blank |
| GLibStrings.Basename | mate-panel/panel-run-dialog.c:666 | g_path_get_basename is never empty and holds a '/' only when it is "/" |
| GLibStrings.BasenameOfSlashes | mate-panel/panel-run-dialog.c:666 | the basename is "/" exactly for a non-empty path made of slashes only |
| GLibStrings.BasenameOfPath | mate-panel/panel-run-dialog.c:666 | the basename of a directory, then a name without '/', then trailing slashes, is that name |
| GLibStrings.Dirname | mate-panel/panel-run-dialog.c:1539 | g_path_get_dirname is never empty, is "." for a path without '/', and is absolute for an absolute path |
| GLibStrings.DirnameOfPath | mate-panel/panel-run-dialog.c:1549 | the dirname of dir + "/" + name is dir |
| GLibStrings.BuildFilename | mate-panel/panel-run-dialog.c:1552 | g_build_filename of two non-empty parts starts with the directory and ends with the name, with exactly one '/' added between them unless the directory already ends in '/'; an empty part leaves the other unchanged |
| GLibStrings.SplitOnSpace | mate-panel/panel-run-dialog.c:660-664 | g_strsplit on " " gives an empty vector exactly for the empty string |
| GLibStrings.PiecesJoin | mate-panel/panel-run-dialog.c:660 | joining the pieces with " " gives the input back |
| GLibStrings.PiecesNoSpace | mate-panel/panel-run-dialog.c:660 | no piece holds a space |
| GLibStrings.FirstPiece | mate-panel/panel-run-dialog.c:660-666 | tokens[0] is the text before the first space, or the whole text when there is no space |
| GLibStrings.ShellQuote | mate-panel/panel-run-dialog.c:595 | g_shell_quote wraps the text in single quotes and loses nothing |
| GLibStrings.ParseScheme | mate-panel/panel-run-dialog.c:521 | a scheme found by g_uri_parse_scheme is the text before a ':', starting with a letter; ParseSchemeIff says exactly when one is found |
| GLibStrings.ParseSchemeIff | mate-panel/panel-run-dialog.c:521 | g_uri_parse_scheme finds a scheme exactly when the text starts with a letter, then scheme characters, then ':' (RFC 3986 section 3.1) |
| CommandMatch.FirstWordBasename | mate-panel/panel-run-dialog.c:660-677 | a basename of the first word exists exactly when the command is non-empty |
| CommandMatch.FuzzyCommandMatch | mate-panel/panel-run-dialog.c:643-691 | a fuzzy result is always a match |
| CommandMatch.FirstTokenIsCommandWord | mate-panel/panel-run-dialog.c:660-666 | the first token of g_strsplit is the command's unique word before the first space |
| CommandMatch.FuzzyCommandMatchSpec | mate-panel/panel-run-dialog.c:653-690 | equal strings give an exact, non-fuzzy match, and only they do; otherwise the result is a fuzzy match exactly when both are non-empty and the basenames of their first words are equal; any other pair does not match |
| CommandMatch.FuzzyCommandMatchSymmetric | mate-panel/panel-run-dialog.c:653-690 | the match and its fuzziness do not depend on argument order |
| FieldCodes.FirstPercent | mate-panel/panel-run-dialog.c:1049 | strstr finds the first '%' of the text |
| FieldCodes.Kept | mate-panel/panel-run-dialog.c:1049-1072 | an independent one-scan reading of the erasure never holds a '%' and is never longer than the input |
| FieldCodes.Step | mate-panel/panel-run-dialog.c:1050-1071 | one pass of the erasing loop removes at most two characters and leaves the text before the first '%' alone; StepPreserves, FieldCodeErased and DoublePercentCollapsed give what it removes |
| FieldCodes.Stripped | mate-panel/panel-run-dialog.c:1041-1078 | what the loop returns, None when it never ends; a returned text holds no '%' and is no longer than the input; StrippedDefinedIff and StrippedIsKept give exactly when it ends and what it returns |
| FieldCodes.StrippedDefinedIff | mate-panel/panel-run-dialog.c:1049-1072 | the loop ends exactly when no '%' is at the end of the text or before a character that is neither '%' nor a field code |
| FieldCodes.StrippedIsKept | mate-panel/panel-run-dialog.c:1049-1072 | when the loop ends, its result is the one-scan reading |
| FieldCodes.StrippedPrefix | mate-panel/panel-run-dialog.c:1049 | text before the first '%' passes through unchanged and in order |
| FieldCodes.StepPreserves | mate-panel/panel-run-dialog.c:1050-1071 | one pass of the loop does not change what the loop returns |
| FieldCodes.FieldCodeErased | mate-panel/panel-run-dialog.c:1054-1068 | a recognised field code is erased with its '%', and the text around it keeps its order |
| FieldCodes.DoublePercentCollapsed | mate-panel/panel-run-dialog.c:1051-1053 | "%%" becomes one '%', which is then examined again with the character after it |
| FieldCodes.StrippedNoPercent | mate-panel/panel-run-dialog.c:1049 | a text without '%' comes back unchanged |
| FieldCodes.NeverTerminates | mate-panel/panel-run-dialog.c:1069-1070 | with a stuck '%', the text still holds a '%' after any number of passes, so the loop never ends |
| FieldCodes.FirstPercentNotStuck | mate-panel/panel-run-dialog.c:1050-1068 | on an input where the loop ends, the first '%' is followed by '%' or a field code |
| FieldCodes.RemoveParameters | mate-panel/panel-run-dialog.c:1041-1078 | the erasing loop, for the inputs on which it ends, returns the one-scan reading, which holds no '%' |
| Quoting.AllSafe | mate-panel/panel-run-dialog.c:588-596 | the scan accepts exactly the texts made of [a-zA-Z0-9] and "-_./=:" |
| Quoting.QuoteString | mate-panel/panel-run-dialog.c:583-599 | the text comes back unchanged exactly when every character is safe |
| Quoting.EscapedBodyReadsBack | mate-panel/panel-run-dialog.c:595 | inside a single-quoted run, the body with each ' written as '\'' reads back as the text |
| Quoting.EscapedHeadReadsBack | mate-panel/panel-run-dialog.c:595 | inside a single-quoted run, the escaped first character reads back as that character |
| Quoting.EscapedQuoteReadsBack | mate-panel/panel-run-dialog.c:595 | inside a single-quoted run, '\'' reads back as one quote character and the run goes on |
| Quoting.ShellQuoteReadsBack | mate-panel/panel-run-dialog.c:595 | the shell reads a g_shell_quote'd word back as the original text |
| Quoting.SafeWordReadsBack | mate-panel/panel-run-dialog.c:598 | a word of safe characters is read by the shell as itself |
| Quoting.QuoteStringReadsBack | mate-panel/panel-run-dialog.c:583-599 | quote_string always gives one shell word whose value is the file name |
| Quoting.AppendFile | mate-panel/panel-run-dialog.c:601-624 | the entry text keeps what was typed as a prefix, and changes exactly when the name is non-empty and does not start with '-'; AppendFileSpec gives what is appended |
| Quoting.AppendFileSpec | mate-panel/panel-run-dialog.c:601-624 | an empty name or one starting with '-' leaves the entry alone; any other name is appended after one blank (none for an empty entry) as one word the shell reads back as that name |
| History.Take | mate-panel/panel-run-dialog.c:224-228 | the cut keeps the first min(n, length) items |
| History.Reverse | mate-panel/panel-run-dialog.c:214-222 | item i of the result is item length-1-i of the input |
| History.Without | mate-panel/panel-run-dialog.c:201-212 | the copies of the command are dropped, and every other command keeps its number of occurrences |
| History.Shown | mate-panel/panel-run-dialog.c:151-178 | the drop-down shows min(max, stored) commands, entry i being stored item i, or the mirrored one when the reverse flag is set |
| History.Saved | mate-panel/panel-run-dialog.c:180-235 | the saved history never exceeds the maximum and, unless the maximum is 0, starts with the command just run; SavedShape gives the rest |
| History.WithoutAppend | mate-panel/panel-run-dialog.c:203-211 | dropping the command works item by item, so the kept items stay in order |
| History.WithoutReverse | mate-panel/panel-run-dialog.c:201-222 | dropping the command commutes with reversal |
| History.ArrangedLacks | mate-panel/panel-run-dialog.c:201-228 | reversing and cutting the other commands never brings back the command just run |
| History.SavedShape | mate-panel/panel-run-dialog.c:190-228 | max 0 empties the history; otherwise the command comes first and occurs once, the length is min(max, 1 + the number of others), and the rest is the other displayed commands, reversed when the flag is set, cut to fit |
| History.LoadThenSave | mate-panel/panel-run-dialog.c:151-235 | loading and then saving stores the newest command first and the older ones in stored order, whatever the reverse flag is |
| History.RecordFourCommands | mate-panel/panel-run-dialog.c:151-235 | running a, b, c, a with max 3 leaves a, c, b |
| History.HistorySettings.RecentPrograms | mate-panel/panel-run-dialog.c:151-178 | the drop-down shows the first min(max, stored) items, reversed when the flag is set |
| History.HistorySettings.SaveRecentPrograms | mate-panel/panel-run-dialog.c:180-235 | the stored history becomes the saved shape above, and no other key changes |
| History.CollectOthers | mate-panel/panel-run-dialog.c:199-212 | slots 1 .. added of the array hold the displayed commands other than the new one, in order; slot 0 is untouched |
| History.ReverseSlots | mate-panel/panel-run-dialog.c:214-222 | the swap loop reverses slots 1 .. n in place and leaves slot 0 alone |
| Applications.Deduplicated | mate-panel/panel-run-dialog.c:941-959 | the kept entries are no more than, and all drawn from, the input |
| Applications.StripDuplicates | mate-panel/panel-run-dialog.c:941-959 | the link-deleting loop keeps an entry exactly when it is the first, or it or the entry before it in the input has a NULL display name, or the two names differ |
| Applications.StripStep | mate-panel/panel-run-dialog.c:945-958 | one pass of the loop deletes the current link when its name repeats the one before, and otherwise moves on past it, keeping the list equal to the kept prefix followed by the unvisited entries |
| Applications.DeduplicatedSubsequence | mate-panel/panel-run-dialog.c:941-959 | the loop only deletes: the result is a subsequence of the input |
| Applications.DeduplicatedLastName | mate-panel/panel-run-dialog.c:952-957 | the last kept entry has the display name of the last input entry |
| Applications.DeduplicatedNoAdjacentDuplicates | mate-panel/panel-run-dialog.c:941-959 | no two neighbouring kept entries have the same non-NULL display name |
| Applications.DeduplicatedKeepsNames | mate-panel/panel-run-dialog.c:941-959 | every display name of the input is still present |
| Applications.FirstOfRunKept | mate-panel/panel-run-dialog.c:952-957 | the first entry of every run of equal names is the one kept |
| Applications.DeduplicatedDistinct | mate-panel/panel-run-dialog.c:941-959 | on a list grouped by display name, every non-NULL name is kept exactly once |
| ProgramList.AllShown | mate-panel/panel-run-dialog.c:1705-1721 | showing every program keeps the number of rows |
| ProgramList.KeyMap | mate-panel/panel-run-dialog.c:764-772 | the accelerator table after n inserts of the key mapping; KeyMapSpec says it holds exactly the first n keys, key k sending to position k |
| ProgramList.KeyMapSpec | mate-panel/panel-run-dialog.c:765-772 | the accelerator table filled with n keys holds exactly the first n keys of the mapping (so at most ten), and key k sends to position k |
| ProgramList.FirstFuzzy | mate-panel/panel-run-dialog.c:738-745 | the first row with a basename-only match, or none exactly when no row has one |
| ProgramList.LastMatched | mate-panel/panel-run-dialog.c:738-745 | the last matching row, or none exactly when no row matches |
| ProgramList.CountTrue | mate-panel/panel-run-dialog.c:764-772 | the count of set flags never exceeds the flags looked at |
| ProgramList.ShownBefore | mate-panel/panel-run-dialog.c:764-772 | the count of visible rows never exceeds the rows looked at |
| ProgramList.FilteredRow | mate-panel/panel-run-dialog.c:738-779 | the filter changes only a row's visible flag and accelerator, and a row showing Alt is visible; FindVisibility and FilterKeysLeadToRows say which rows are visible and which keys they show |
| ProgramList.FoundBefore | mate-panel/panel-run-dialog.c:738-745 | the row found so far is one of the rows looked at |
| ProgramList.FindStep | mate-panel/panel-run-dialog.c:724-787 | one pass of the loop changes only row i, either keeps the found row or makes it row i, and hands out an accelerator only to a row it leaves visible; StepSpec and FindStepAdvances give the rest |
| ProgramList.PassStart | mate-panel/panel-run-dialog.c:718-722 | before the loop, nothing has been filtered, seen, handed out or found, and the table is empty |
| ProgramList.FindStepAdvances | mate-panel/panel-run-dialog.c:724-787 | one pass of the loop on row n takes loop variables that describe the first n rows to ones that describe the first n + 1 |
| ProgramList.FoundStep | mate-panel/panel-run-dialog.c:738-745 | one pass keeps the fuzzy flag and the found row equal to the first basename-only match, else the last exact one, of the rows looked at |
| ProgramList.RowsStep | mate-panel/panel-run-dialog.c:738-779 | one pass sets the row's visible flag and accelerator as the filter says, counts it when visible, and binds its key in the table while fewer than ten are bound |
| ProgramList.PassDone | mate-panel/panel-run-dialog.c:724-804 | after the last row, the rows are the filtered rows, the table holds the keys of the first ten visible rows, and the found row (with its icon and name untouched) is the filter's pick |
| ProgramList.StepSpec | mate-panel/panel-run-dialog.c:724-787 | one pass of the loop updates row i, the fuzzy flag and the found row as the filter says |
| ProgramList.FindVisibility | mate-panel/panel-run-dialog.c:738-762 | a row stays visible exactly when it was accepted by the match test or mentions the text; the found row is always visible |
| ProgramList.FoundRowSpec | mate-panel/panel-run-dialog.c:738-745 | a row is found exactly when some row matches; it is the first basename-only match, or else the last exact one |
| ProgramList.NthTrue | mate-panel/panel-run-dialog.c:764-772 | for k below the count of set flags, the k-th set flag exists and has exactly k set flags before it |
| ProgramList.NthShown | mate-panel/panel-run-dialog.c:764-772 | for k below the number of visible rows, the k-th visible row exists and has exactly k visible rows before it |
| ProgramList.FilterKeysLeadToRows | mate-panel/panel-run-dialog.c:764-779 | each key in the filter's table leads to the visible row showing that key, at the position the table gives in the filtered view; the table has at most ten keys |
| ProgramList.AllShownKeys | mate-panel/panel-run-dialog.c:982-994 | with every program shown, Alt plus the k-th key leads to row k, which shows that key; rows from the eleventh on show a bare Alt |
| ProgramList.RunDialog.AddItems | mate-panel/panel-run-dialog.c:917-995 | the store holds one visible row per entry left after duplicate stripping, with the first ten keys bound in order, and the table holds those keys |
| ProgramList.RunDialog.ShowAllPrograms | mate-panel/panel-run-dialog.c:1703-1721 | every row becomes visible with the default accelerators, and the table is rebuilt to match |
| ProgramList.RunDialog.FindCommand | mate-panel/panel-run-dialog.c:693-807 | on an empty store only the icon is reset; otherwise every row becomes its filtered row, the table holds the keys of the first ten visible rows, and the icon and item name come from the found row (or are cleared) |
| ProgramList.RunDialog.FilterRows | mate-panel/panel-run-dialog.c:718-787 | the do-while loop leaves the rows, the fuzzy flag, the accelerator count, the found row and the table as the filter says for the whole list |
| ProgramList.RunDialog.FilterRow | mate-panel/panel-run-dialog.c:724-787 | one pass of the loop changes the row, the flags, the found row and the table exactly as the pass function says |
| ProgramList.RunDialog.AcceleratorKeyPressed | mate-panel/panel-run-dialog.c:2031-2045 | a key in the table moves the cursor to its row; any other key changes nothing |
| Completion.LeadByte | mate-panel/panel-run-dialog.c:1532 | the prefix is the first byte of the UTF-8 text (a C char): an ASCII character is its own byte, any other character gives a byte of 0x80 or more |
| Completion.ItemsForMembers | mate-panel/panel-run-dialog.c:1379-1407 | an item is offered exactly for an entry whose name's first byte is the prefix, as the name under dirprefix with '/' after a directory |
| Completion.FilesFrom | mate-panel/panel-run-dialog.c:1363-1412 | fill_files_from gives nothing for a directory it cannot open and at most one item per entry; FilesFromMembers says which items |
| Completion.FilesFromMembers | mate-panel/panel-run-dialog.c:1363-1412 | fill_files_from offers exactly those items, and nothing for a directory it cannot open |
| Completion.FillStep | mate-panel/panel-run-dialog.c:1466-1478 | one pass of the loop either stops with nothing offered, because the name is already an item, or adds the qualifying name in front of the reversed list of names found so far |
| Completion.ExecutablesWhenNew | mate-panel/panel-run-dialog.c:1461-1484 | when no qualifying name is already an item, the loop's list is what fill_executables offers |
| Completion.FillExecutables | mate-panel/panel-run-dialog.c:1451-1485 | the loop returns the basenames of qualifying files in reverse order, or nothing once one of them is already an item |
| Completion.Executables | mate-panel/panel-run-dialog.c:1451-1485 | fill_executables offers at most one name per file of $PATH; ExecutablesSpec says which |
| Completion.ExecutablesSpec | mate-panel/panel-run-dialog.c:1461-1484 | what fill_executables offers are the basenames of the regular executable files of $PATH whose first byte is the prefix, none already an item; if any qualifying name is an item, it offers nothing |
| Completion.QualifyingNamesFrom | mate-panel/panel-run-dialog.c:1466-1478 | every collected name starts with the prefix byte and is the basename of a qualifying file |
| Completion.QualifyingNamesHas | mate-panel/panel-run-dialog.c:1466-1478 | the basename of every qualifying file is collected |
| Completion.ExecutablesOnlyOnce | mate-panel/panel-run-dialog.c:1472-1476 | once its names are added to the items, asking again with the same prefix offers nothing |
| Completion.CompletionPlan | mate-panel/panel-run-dialog.c:1531-1553 | completion goes ahead only when the basename's first byte is neither '/' nor '.'; $PATH is searched exactly for a text without '/'; for an absolute text the directory read is the one the items are named under, and it is absolute |
| Completion.CompletionPlanOfPath | mate-panel/panel-run-dialog.c:1537-1553 | typing dir/name completes the first byte of name in dir, or in dir under the home directory when dir is relative |
| Completion.CompletionPlanOfWord | mate-panel/panel-run-dialog.c:1543-1552 | typing a bare word completes its first byte in the home directory and among the executables |
| Completion.NoCompletionForDotOrSlash | mate-panel/panel-run-dialog.c:1531-1535 | nothing is completed for a directory part, a name starting with '.', and any trailing slashes, whose basename starts with '.' |
| Completion.NoCompletionForSlashes | mate-panel/panel-run-dialog.c:1531-1535 | nothing is completed for a text of slashes only, whose basename starts with '/' |
| Completion.SharedLeadByte | mate-panel/panel-run-dialog.c:1531-1560 | in the home directory "é" completes the file "èx", since both start with the byte 0xC3, and "é", "à" and "ü" share the key "/\xC3" |
| Completion.CompletionState.UpdateCompletion | mate-panel/panel-run-dialog.c:1514-1577 | a directory is read only when its "dirprefix/prefix" key is new, and the key is inserted, so each key is read at most once; completion_items only grows, by appending what was found; the completion model is replaced only when something was found |
| Completion.CompletionState.AddCompletions | mate-panel/panel-run-dialog.c:1555-1576 | the executables are added when asked for, the directory is read and its key recorded only when the key is new, and the items and model change only when something was found |
| Launch.HomePath | mate-panel/panel-run-dialog.c:371 | the home path ends in '/'; a home with some other character keeps itself up to its trailing slashes, which become exactly one '/'; a home of slashes only gets one more '/', as GLib keeps the first element's leading and the last element's trailing separators |
| Launch.ExpandTilde | mate-panel/panel-run-dialog.c:369-379 | only an argument starting with "~/" changes, and then it still ends with what followed "~/"; ExpandTildeSpec gives its value |
| Launch.ExpandTildes | mate-panel/panel-run-dialog.c:369-379 | every argument is replaced in place by its expansion |
| Launch.ExpandTildeSpec | mate-panel/panel-run-dialog.c:369-379 | "~/rest" becomes the home directory, '/', and rest; an argument not starting with "~/" is left alone |
| Launch.ExpandTildeIdempotent | mate-panel/panel-run-dialog.c:369-379 | when the home directory does not start with '~', expanding twice gives the same result as expanding once |
| Launch.TildeExample | mate-panel/panel-run-dialog.c:369-379 | "~/bin/foo" with home /home/user names /home/user/bin/foo |
| Launch.RootHomeExample | mate-panel/panel-run-dialog.c:369-379 | with the home directory "/", the home path is "//" and "~/bin/x" names "//bin/x" |
| Launch.ExecutableArgv | mate-panel/panel-run-dialog.c:352-408 | an accepted command was parsed and keeps its number of arguments, at least one; ExecutableArgvSpec says exactly when a command is accepted |
| Launch.CommandIsExecutable | mate-panel/panel-run-dialog.c:352-408 | returns the expanded argument vector exactly when parsing succeeds and the program is found as a regular executable file |
| Launch.ExecutableArgvSpec | mate-panel/panel-run-dialog.c:364-398 | a command is accepted exactly when it parses to a non-empty vector whose first argument, with "~/" expanded, is found as a regular, executable file; an accepted vector has every parsed argument expanded; a parse failure is never accepted |
| Launch.LaunchCommand | mate-panel/panel-run-dialog.c:431-484 | the command counts as accepted exactly when command_is_executable accepts it; a launch happens only for an accepted command whose spawn succeeds, with the terminal prefix when the terminal box is ticked |
| Launch.ExecuteOutcome | mate-panel/panel-run-dialog.c:486-557 | a press of Run does nothing exactly for blank text, and reports a failed conversion exactly when the trimmed text cannot be converted; ExecuteOutcomeSpec gives the launch and show cases |
| Launch.RunOrShowOutcome | mate-panel/panel-run-dialog.c:519-541 | once converted, the text is launched, shown or fails, and is shown only when showing succeeds; RunOrShowSpec says when each happens |
| Launch.ExecuteOutcomeSpec | mate-panel/panel-run-dialog.c:486-557 | blank text does nothing, and only blank text does; a program is launched only from an absolute path or a text without a scheme, as the accepted vector, after the terminal prefix when ticked; a converted text that is not launched is shown exactly when showing succeeds, and a failed spawn is recorded exactly when an accepted command was tried |
| Launch.RunOrShowSpec | mate-panel/panel-run-dialog.c:519-541 | once converted, the text is launched exactly when it may be a program, is accepted and spawns, with the accepted vector after the terminal prefix when ticked; otherwise it is shown exactly when showing succeeds, and the outcome records a failed spawn exactly when a spawn was tried |
| Launch.RunOrShow | mate-panel/panel-run-dialog.c:519-541 | the launch-or-show step ends as the run-or-show outcome says |
| Launch.UriIsNeverLaunched | mate-panel/panel-run-dialog.c:521-525 | a text with a URI scheme that is not an absolute path is never run as a program |
| Launch.Execute | mate-panel/panel-run-dialog.c:486-557 | the history is saved, with the trimmed command, exactly when something was launched or shown; otherwise it is unchanged |

## Left out

- Widgets, signals, layout, drag and drop, the pixmap and the desktop-file
  creation are not modelled. This includes `panel_run_dialog_new`,
  `panel_run_dialog_update_content`, `entry_drag_data_received`,
  `pixmap_drag_data_get` and `panel_run_dialog_create_desktop_file`.
- `panel_run_dialog_set_icon` becomes a plain assignment of the found icon.
  The icon theme lookup and the fallback to the default icon are not modelled.
- The scrolling of the tree view in `find_command_idle` is not modelled.
- The menu tree traversal (`get_all_applications*`) and the sort by
  `g_utf8_collate` (`compare_applications`) are not modelled; the
  duplicate-stripping loop receives the list.
  - The sort uses `g_app_info_get_name`, while the loop compares display
    names, so the list is not assumed to be grouped by display name.
  - `Applications.DeduplicatedDistinct` takes grouping as a requirement.
- `fill_possible_executables` (reading `$PATH`) is left out; its result is
  given to the completion state when it is made.
- `opendir`/`readdir`, `g_file_test` and `g_find_program_in_path` become a
  file-system value or a function parameter.
  - `d_type` is assumed to be available (the `HAVE_STRUCT_DIRENT_D_TYPE`
    branch).
  - `existing_items` of `fill_files_from` is unused in the source and is not
    modelled.
- `panel_g_utf8_strstrcase` (case-insensitive substring search),
  `g_locale_from_utf8`, `g_shell_parse_argv`,
  `mate_desktop_prepend_terminal_to_vector`, `g_spawn_async` and
  `panel_show_uri` are parameters. Their results are given, not computed.
- The error dialogs are not modelled; the outcome only records that one was
  shown after a failed spawn.
- `panel_util_get_file_optional_homedir` (turning the command into a URI) is
  not modelled; only the success of showing it is.
- The tab-completion key handling in `entry_event`, idle scheduling, the
  static dialog singleton and `program_list_selection_changed` are event-loop
  glue and are not modelled.
- GLibStrings.BuildFilename: only the two-part form the dialog uses is
  modelled, as dir, then '/' unless dir already ends in '/', then name.
  GLib strips the separators at each join between parts: the trailing '/'
  of the directory and the leading '/' of the name, keeping one '/' between
  them. The model keeps the parts whole, so it gives "a//b" for ("a", "/b")
  and "/home/u//x" for ("/home/u//", "x"), where GLib gives "a/b" and
  "/home/u/x". Separators inside a part are left alone by both.
- GLibStrings.ParseScheme: follows the syntax of RFC 3986 section 3.1 and
  does not lower-case the scheme. The dialog only tests whether a scheme was
  found.
- Quoting.ShellQuoteReadsBack: the reading of a word by the shell
  (`Quoting.ShellWordValue`) covers only safe characters, backslash escapes
  and single-quoted runs. This is all that `quote_string` produces.
- FieldCodes.RemoveParameters: requires an input on which the loop ends. The
  inputs with a stuck '%' never return; the model states that with
  `FieldCodes.NeverTerminates` and `FieldCodes.StrippedDefinedIff` instead of
  running a method forever.
- Completion.CompletionState.UpdateCompletion: `completion_add_items` is
  modelled as the list last handed to the completion. The `GtkListStore` it
  builds is not modelled.
- ProgramList.RunDialog.FindCommand: the source copies the icon and name of
  each accepted row into `found_icon` and `found_name` during the loop; the
  model reads them from the found row after the loop. The loop never changes
  those columns, so the result is the same.
- ProgramList.RunDialog.FindCommand: with an empty store the source returns
  before clearing the accelerator table, and the model keeps that. Rows after
  the tenth visible one get modifier 0 here, but Alt (`GDK_MOD1_MASK`) in
  `AddItems` and `ShowAllPrograms`; the model keeps this difference as well.
