/**
 * The program list of the run dialog in mate-panel/panel-run-dialog.c: the
 * rows of program_list_store, the accelerator hash table that sends an
 * Alt+digit key to a position in the filtered list, and the operations that
 * rewrite them: panel_run_dialog_add_items_idle (fill the list),
 * panel_run_dialog_find_command_idle (filter it against the typed text and
 * pick the icon), the empty-text branch of combobox_changed (show every row
 * again) and panel_run_dialog_accelerator_key_pressed.
 *
 * panel_g_utf8_strstrcase is a parameter of the filter: the model only needs
 * to know whether it finds the text inside a column.
 */
module ProgramList {
  import opened Options
  import GLibStrings
  import opened CommandMatch
  import opened Applications

  /** GDK_MOD1_MASK, the Alt modifier. */
  const Mod1Mask: int := 8

  /** The key_id column of accelerator_key_mapping: GDK_KEY_1 .. GDK_KEY_9, then GDK_KEY_0. */
  const AcceleratorKeys: seq<int> := [0x31, 0x32, 0x33, 0x34, 0x35, 0x36, 0x37, 0x38, 0x39, 0x30]

  /** One row of program_list_store, column by column (NULL is None). */
  datatype Row = Row(
    icon: Option<Icon>,
    name: Option<string>,
    accelMask: int,
    accelKey: int,
    comment: Option<string>,
    path: string,
    exec: Option<string>,
    visible: bool)

  function Min(a: int, b: int): int {
    if a < b then a else b
  }

  /** The columns gtk_list_store_set fills from a menu entry. */
  function RowOf(e: AppEntry): Row {
    Row(e.icon, e.displayName, 0, 0, e.description, e.desktopPath, e.commandline, true)
  }

  /** Row i with every program shown: visible, Alt+digit on the first ten rows, a bare Alt on the rest. */
  function ShownWithDefaultKey(row: Row, i: nat): Row {
    row.(visible := true, accelMask := Mod1Mask,
         accelKey := if i < |AcceleratorKeys| then AcceleratorKeys[i] else 0)
  }

  /** The whole list with every program shown. */
  function AllShown(rows: seq<Row>): (r: seq<Row>)
    ensures |r| == |rows|
  {
    seq(|rows|, i requires 0 <= i < |rows| => ShownWithDefaultKey(rows[i], i))
  }

  /** The accelerator hash table once the first n keys have been inserted, key k sending to position k. */
  function KeyMap(n: nat): map<int, int>
    requires n <= |AcceleratorKeys|
  {
    if n == 0 then map[] else KeyMap(n - 1)[AcceleratorKeys[n - 1] := n - 1]
  }

  /**
   * The table filled with n keys holds exactly those n keys (so at most ten),
   * and each sends to its own position.
   */
  lemma {:induction false} KeyMapSpec(n: nat)
    requires n <= |AcceleratorKeys|
    ensures |KeyMap(n)| == n
    ensures forall key :: key in KeyMap(n) <==> key in AcceleratorKeys[..n]
    ensures forall k :: 0 <= k < n ==> KeyMap(n)[AcceleratorKeys[k]] == k
  {
    if n > 0 {
      KeyMapSpec(n - 1);
      assert AcceleratorKeys[n - 1] !in AcceleratorKeys[..n - 1];
      assert AcceleratorKeys[..n] == AcceleratorKeys[..n - 1] + [AcceleratorKeys[n - 1]];
    }
  }

  /** panel_g_utf8_strstrcase (hay, text) != NULL, with a NULL column never containing anything. */
  predicate Contains(hay: Option<string>, text: string, strstrcase: (string, string) -> bool) {
    hay.Some? && strstrcase(hay.value, text)
  }

  /** The typed text occurs in the command line, the name or the comment of the row. */
  predicate Mentions(row: Row, text: string, strstrcase: (string, string) -> bool) {
    Contains(row.exec, text, strstrcase) || Contains(row.name, text, strstrcase) ||
    Contains(row.comment, text, strstrcase)
  }

  /** The row has the command line and the icon that the match test needs. */
  predicate Candidate(row: Row) {
    row.exec.Some? && row.icon.Some?
  }

  /** fuzzy_command_match accepts the text for row i. */
  predicate MatchedAt(rows: seq<Row>, i: nat, text: string)
    requires i < |rows|
  {
    Candidate(rows[i]) && FuzzyCommandMatch(text, rows[i].exec.value).matched
  }

  /** fuzzy_command_match accepts the text for row i only through the basenames. */
  predicate FuzzyAt(rows: seq<Row>, i: nat, text: string)
    requires i < |rows|
  {
    Candidate(rows[i]) && FuzzyCommandMatch(text, rows[i].exec.value).fuzzy
  }

  /** The first of the first n rows with a fuzzy match. */
  function FirstFuzzy(rows: seq<Row>, text: string, n: nat): (r: Option<nat>)
    requires n <= |rows|
    ensures r.None? <==> forall j :: 0 <= j < n ==> !FuzzyAt(rows, j, text)
    ensures r.Some? ==> (r.value < n && FuzzyAt(rows, r.value, text) &&
      forall j :: 0 <= j < r.value ==> !FuzzyAt(rows, j, text))
  {
    if n == 0 then None
    else if FirstFuzzy(rows, text, n - 1).Some? then FirstFuzzy(rows, text, n - 1)
    else if FuzzyAt(rows, n - 1, text) then Some(n - 1)
    else None
  }

  /** The last of the first n rows that matches at all. */
  function LastMatched(rows: seq<Row>, text: string, n: nat): (r: Option<nat>)
    requires n <= |rows|
    ensures r.None? ==> forall j :: 0 <= j < n ==> !MatchedAt(rows, j, text)
    ensures r.Some? ==> (r.value < n && MatchedAt(rows, r.value, text) &&
      forall j :: r.value < j < n ==> !MatchedAt(rows, j, text))
  {
    if n == 0 then None
    else if MatchedAt(rows, n - 1, text) then Some(n - 1)
    else LastMatched(rows, text, n - 1)
  }

  /** Row i is tested and accepted: it matches and no earlier row has matched fuzzily. */
  predicate HitAt(rows: seq<Row>, i: nat, text: string)
    requires i < |rows|
  {
    FirstFuzzy(rows, text, i).None? && MatchedAt(rows, i, text)
  }

  /** Row i stays visible after the filter. */
  predicate ShownAt(rows: seq<Row>, i: nat, text: string, strstrcase: (string, string) -> bool)
    requires i < |rows|
  {
    HitAt(rows, i, text) || Mentions(rows[i], text, strstrcase)
  }

  /** Which rows stay visible after the filter, row by row. */
  function ShownFlags(rows: seq<Row>, text: string, strstrcase: (string, string) -> bool): (r: seq<bool>)
    ensures |r| == |rows|
  {
    seq(|rows|, i requires 0 <= i < |rows| => ShownAt(rows, i, text, strstrcase))
  }

  /** How many of the first n flags are set. */
  function CountTrue(flags: seq<bool>, n: nat): (c: nat)
    requires n <= |flags|
    ensures c <= n
  {
    if n == 0 then 0 else CountTrue(flags, n - 1) + (if flags[n - 1] then 1 else 0)
  }

  /** How many of the first n rows stay visible. */
  function ShownBefore(rows: seq<Row>, text: string, strstrcase: (string, string) -> bool, n: nat): (c: nat)
    requires n <= |rows|
    ensures c <= n
  {
    CountTrue(ShownFlags(rows, text, strstrcase), n)
  }

  /**
   * Row i after the filter: only the visible flag and the accelerator change;
   * the k-th visible row (k < 10) shows Alt plus the k-th key, every other
   * row shows no accelerator at all.
   */
  function FilteredRow(rows: seq<Row>, i: nat, text: string, strstrcase: (string, string) -> bool): (r: Row)
    requires i < |rows|
    ensures r.(visible := rows[i].visible, accelMask := rows[i].accelMask, accelKey := rows[i].accelKey) == rows[i]
    ensures r.accelMask == Mod1Mask ==> r.visible
  {
    var shown := ShownAt(rows, i, text, strstrcase);
    var k := ShownBefore(rows, text, strstrcase, i);
    var bound := shown && k < |AcceleratorKeys|;
    rows[i].(visible := shown,
             accelMask := if bound then Mod1Mask else 0,
             accelKey := if bound then AcceleratorKeys[k] else 0)
  }

  /** The row found among the first n rows: the first fuzzy match, else the last exact one. */
  function FoundBefore(rows: seq<Row>, text: string, n: nat): (r: Option<nat>)
    requires n <= |rows|
    ensures r.Some? ==> r.value < n
  {
    var f := FirstFuzzy(rows, text, n);
    if f.Some? then f else LastMatched(rows, text, n)
  }

  /** The row whose icon and name the filter picks. */
  function FoundRow(rows: seq<Row>, text: string): Option<nat>
  {
    FoundBefore(rows, text, |rows|)
  }

  /** The variables of the do-while loop of panel_run_dialog_find_command_idle. */
  datatype Pass = Pass(rows: seq<Row>, fuzzy: bool, visibleIdx: nat, found: Option<nat>, keys: map<int, int>)

  /** One pass of the loop, on row i. */
  function FindStep(p: Pass, i: nat, text: string, strstrcase: (string, string) -> bool): (r: Pass)
    requires i < |p.rows|
    ensures |r.rows| == |p.rows| && forall j :: 0 <= j < |p.rows| && j != i ==> r.rows[j] == p.rows[j]
    ensures r.found == p.found || r.found == Some(i)
    ensures r.visibleIdx == p.visibleIdx || (r.visibleIdx == p.visibleIdx + 1 && r.rows[i].visible)
  {
    var row := p.rows[i];
    var tried := !p.fuzzy && Candidate(row);
    var m := if tried then FuzzyCommandMatch(text, row.exec.value) else MatchResult(false, p.fuzzy);
    var hit := tried && m.matched;
    var visible := hit || Mentions(row, text, strstrcase);
    var bind := visible && p.visibleIdx < |AcceleratorKeys|;
    var row' := row.(visible := visible,
                     accelMask := if bind then Mod1Mask else 0,
                     accelKey := if bind then AcceleratorKeys[p.visibleIdx] else 0);
    Pass(p.rows[i := row'],
         m.fuzzy,
         if bind then p.visibleIdx + 1 else p.visibleIdx,
         if hit then Some(i) else p.found,
         if bind then p.keys[AcceleratorKeys[p.visibleIdx] := p.visibleIdx] else p.keys)
  }

  /**
   * The loop variables after the first n rows: those rows filtered and the
   * rest untouched, the fuzzy flag set once a basename-only match has been
   * seen, one accelerator handed out per visible row up to ten, the row found
   * so far, and a table that holds exactly the keys handed out.
   */
  predicate PassAfter(rows: seq<Row>, text: string, strstrcase: (string, string) -> bool, p: Pass, n: nat)
    requires n <= |rows|
  {
    RowsAfter(rows, text, strstrcase, p, n) &&
    (p.fuzzy <==> FirstFuzzy(rows, text, n).Some?) &&
    p.found == FoundBefore(rows, text, n)
  }

  /** The rows, the accelerator count and the table of the loop variables after n rows. */
  predicate RowsAfter(rows: seq<Row>, text: string, strstrcase: (string, string) -> bool, p: Pass, n: nat)
    requires n <= |rows|
  {
    |p.rows| == |rows| &&
    (forall j :: 0 <= j < n ==> p.rows[j] == FilteredRow(rows, j, text, strstrcase)) &&
    (forall j :: n <= j < |rows| ==> p.rows[j] == rows[j]) &&
    p.visibleIdx == Min(|AcceleratorKeys|, ShownBefore(rows, text, strstrcase, n)) &&
    p.keys == KeyMap(p.visibleIdx)
  }

  /** The loop starts from the list as it is, with nothing seen, handed out or found. */
  lemma PassStart(rows: seq<Row>, text: string, strstrcase: (string, string) -> bool)
    ensures PassAfter(rows, text, strstrcase, Pass(rows, false, 0, None, map[]), 0)
  {
  }

  /** After the last row, the loop variables hold the filtered list, its accelerator table and the found row. */
  lemma PassDone(rows: seq<Row>, text: string, strstrcase: (string, string) -> bool, p: Pass)
    requires PassAfter(rows, text, strstrcase, p, |rows|)
    ensures |p.rows| == |rows|
    ensures forall i :: 0 <= i < |rows| ==> p.rows[i] == FilteredRow(rows, i, text, strstrcase)
    ensures p.keys == KeyMap(Min(|AcceleratorKeys|, ShownBefore(rows, text, strstrcase, |rows|)))
    ensures p.found == FoundRow(rows, text)
    ensures p.found.Some? ==>
      p.found.value < |rows| && p.rows[p.found.value].icon == rows[p.found.value].icon &&
      p.rows[p.found.value].name == rows[p.found.value].name
  {
  }

  /** The pass on row n takes the loop variables after n rows to those after n + 1 rows. */
  lemma FindStepAdvances(rows: seq<Row>, text: string, strstrcase: (string, string) -> bool, q: Pass, n: nat)
    requires n < |rows| && PassAfter(rows, text, strstrcase, q, n)
    ensures PassAfter(rows, text, strstrcase, FindStep(q, n, text, strstrcase), n + 1)
  {
    StepSpec(rows, text, strstrcase, n, q);
    FoundStep(rows, text, strstrcase, q, n);
    RowsStep(rows, text, strstrcase, q, n);
  }

  /** The pass on row i keeps the fuzzy flag and the found row in step with the rows up to i. */
  lemma FoundStep(rows: seq<Row>, text: string, strstrcase: (string, string) -> bool, q: Pass, i: nat)
    requires i < |rows| && |q.rows| == |rows| && q.rows[i] == rows[i]
    requires q.fuzzy <==> FirstFuzzy(rows, text, i).Some?
    requires q.found == FoundBefore(rows, text, i)
    ensures var p := FindStep(q, i, text, strstrcase);
      (p.fuzzy <==> FirstFuzzy(rows, text, i + 1).Some?) &&
      p.found == FoundBefore(rows, text, i + 1)
  {
    StepSpec(rows, text, strstrcase, i, q);
  }

  /** The pass on row i keeps the rows, the accelerator count and the table in step. */
  lemma RowsStep(rows: seq<Row>, text: string, strstrcase: (string, string) -> bool, q: Pass, i: nat)
    requires i < |rows| && RowsAfter(rows, text, strstrcase, q, i)
    requires q.fuzzy <==> FirstFuzzy(rows, text, i).Some?
    ensures RowsAfter(rows, text, strstrcase, FindStep(q, i, text, strstrcase), i + 1)
  {
    var n := i + 1;
    StepSpec(rows, text, strstrcase, i, q);
    var p := FindStep(q, i, text, strstrcase);
    var shown := ShownAt(rows, i, text, strstrcase);
    var sb := ShownBefore(rows, text, strstrcase, i);
    assert ShownBefore(rows, text, strstrcase, n) == sb + (if shown then 1 else 0);
    assert (shown && q.visibleIdx < |AcceleratorKeys|) == (shown && sb < |AcceleratorKeys|);
    forall j | 0 <= j < n
      ensures p.rows[j] == FilteredRow(rows, j, text, strstrcase)
    {
      if j < i {
        assert p.rows[j] == q.rows[j];
      }
    }
  }

  /** The pass on row i, from loop variables that agree with the rows before it. */
  lemma StepSpec(rows: seq<Row>, text: string, strstrcase: (string, string) -> bool, i: nat, q: Pass)
    requires i < |rows| && |q.rows| == |rows| && q.rows[i] == rows[i]
    requires q.fuzzy <==> FirstFuzzy(rows, text, i).Some?
    ensures var p := FindStep(q, i, text, strstrcase);
      (p.fuzzy <==> FirstFuzzy(rows, text, i + 1).Some?) &&
      p.rows[i].visible == ShownAt(rows, i, text, strstrcase) &&
      p.found == (if HitAt(rows, i, text) then Some(i) else q.found)
  {
    if !q.fuzzy && Candidate(rows[i]) {
      var m := FuzzyCommandMatch(text, rows[i].exec.value);
      assert m.fuzzy ==> m.matched;
    }
  }

  /** The filter keeps a row visible exactly when it was accepted by the match test or mentions the text. */
  lemma FindVisibility(rows: seq<Row>, text: string, strstrcase: (string, string) -> bool, i: nat)
    requires i < |rows|
    ensures FilteredRow(rows, i, text, strstrcase).visible <==>
      (MatchedAt(rows, i, text) && forall j :: 0 <= j < i ==> !FuzzyAt(rows, j, text)) ||
      Mentions(rows[i], text, strstrcase)
    ensures FoundRow(rows, text).Some? ==> FilteredRow(rows, FoundRow(rows, text).value, text, strstrcase).visible
  {
    var f := FoundRow(rows, text);
    if f.Some? {
      var k := f.value;
      if FirstFuzzy(rows, text, |rows|).None? {
        assert FirstFuzzy(rows, text, k).None?;
      }
    }
  }

  /** Once any row matches, some row is found; the found row is the first fuzzy match, or else the last exact one. */
  lemma FoundRowSpec(rows: seq<Row>, text: string)
    ensures FoundRow(rows, text).Some? <==> exists j :: 0 <= j < |rows| && MatchedAt(rows, j, text)
    ensures forall k :: FoundRow(rows, text) == Some(k) ==>
      k < |rows| && MatchedAt(rows, k, text) &&
      if exists j :: 0 <= j < |rows| && FuzzyAt(rows, j, text) then
        FuzzyAt(rows, k, text) && forall j :: 0 <= j < k ==> !FuzzyAt(rows, j, text)
      else
        rows[k].exec == Some(text) && forall j :: k < j < |rows| ==> !MatchedAt(rows, j, text)
  {
    var f := FirstFuzzy(rows, text, |rows|);
    if f.Some? {
      assert MatchedAt(rows, f.value, text);
    }
    if f.None? && LastMatched(rows, text, |rows|).Some? {
      var k := LastMatched(rows, text, |rows|).value;
      assert !FuzzyAt(rows, k, text);
      var exec := rows[k].exec.value;
      GLibStrings.FirstPiece(text);
      GLibStrings.FirstPiece(exec);
      FuzzyCommandMatchSpec(text, exec, GLibStrings.Pieces(text)[0], GLibStrings.Pieces(exec)[0]);
    }
  }

  /**
   * Each key in the filter's accelerator table leads to a visible row that
   * shows that key, at the position the table gives in the filtered view;
   * the table never holds more than ten keys.
   */
  lemma FilterKeysLeadToRows(rows: seq<Row>, text: string, strstrcase: (string, string) -> bool)
    ensures var m := KeyMap(Min(|AcceleratorKeys|, ShownBefore(rows, text, strstrcase, |rows|)));
      |m| <= |AcceleratorKeys| &&
      forall key :: key in m ==>
        exists i :: 0 <= i < |rows| && FilteredRow(rows, i, text, strstrcase).visible &&
          FilteredRow(rows, i, text, strstrcase).accelMask == Mod1Mask &&
          FilteredRow(rows, i, text, strstrcase).accelKey == key &&
          ShownBefore(rows, text, strstrcase, i) == m[key]
  {
    var n := Min(|AcceleratorKeys|, ShownBefore(rows, text, strstrcase, |rows|));
    var m := KeyMap(n);
    KeyMapSpec(n);
    forall key | key in m
      ensures exists i :: (0 <= i < |rows| && FilteredRow(rows, i, text, strstrcase).visible &&
          FilteredRow(rows, i, text, strstrcase).accelMask == Mod1Mask &&
          FilteredRow(rows, i, text, strstrcase).accelKey == key &&
          ShownBefore(rows, text, strstrcase, i) == m[key])
    {
      var k :| 0 <= k < n && AcceleratorKeys[..n][k] == key;
      assert m[key] == k;
      var i := NthShown(rows, text, strstrcase, |rows|, k);
    }
  }

  /** The k-th row that stays visible, for k below the number of visible rows. */
  lemma NthShown(rows: seq<Row>, text: string, strstrcase: (string, string) -> bool, n: nat, k: nat)
    returns (i: nat)
    requires n <= |rows| && k < ShownBefore(rows, text, strstrcase, n)
    ensures i < n && ShownAt(rows, i, text, strstrcase) && ShownBefore(rows, text, strstrcase, i) == k
  {
    i := NthTrue(ShownFlags(rows, text, strstrcase), n, k);
  }

  /** The position of the k-th set flag among the first n, for k below their count. */
  lemma {:induction false} NthTrue(flags: seq<bool>, n: nat, k: nat) returns (i: nat)
    requires n <= |flags| && k < CountTrue(flags, n)
    ensures i < n && flags[i] && CountTrue(flags, i) == k
    decreases n
  {
    if k < CountTrue(flags, n - 1) {
      i := NthTrue(flags, n - 1, k);
    } else {
      i := n - 1;
    }
  }

  /**
   * With every program shown, Alt plus the k-th key leads to row k, which
   * shows that key; rows from the eleventh on show a bare Alt.
   */
  lemma AllShownKeys(rows: seq<Row>)
    ensures var r := AllShown(rows);
      var m := KeyMap(Min(|AcceleratorKeys|, |rows|));
      |m| <= |AcceleratorKeys| &&
      (forall key :: key in m ==> 0 <= m[key] < |r| && r[m[key]].accelKey == key) &&
      (forall i :: 0 <= i < |r| ==> r[i].visible && r[i].accelMask == Mod1Mask) &&
      (forall i :: |AcceleratorKeys| <= i < |r| ==> r[i].accelKey == 0)
  {
    var n := Min(|AcceleratorKeys|, |rows|);
    KeyMapSpec(n);
    forall key | key in KeyMap(n)
      ensures 0 <= KeyMap(n)[key] < |rows| && AllShown(rows)[KeyMap(n)[key]].accelKey == key
    {
      var k :| 0 <= k < n && AcceleratorKeys[..n][k] == key;
      assert KeyMap(n)[AcceleratorKeys[k]] == k;
    }
  }

  /** The dialog state that the program list operations read and write. */
  class RunDialog {
    /** program_list_store */
    var rows: seq<Row>
    /** accelerator_keys_to_tree_iter_map */
    var accelMap: map<int, int>
    /** dialog->icon: the icon the dialog shows for the command; None for the default one. */
    var icon: Option<Icon>
    /** dialog->item_name */
    var itemName: Option<string>
    /** The position of the tree view's cursor in the filtered list. */
    var cursor: Option<int>

    constructor ()
      ensures rows == [] && accelMap == map[] && icon == None && itemName == None && cursor == None
    {
      rows := [];
      accelMap := map[];
      icon := None;
      itemName := None;
      cursor := None;
    }

    /**
     * panel_run_dialog_add_items_idle: strips duplicate names, then appends
     * one visible row per entry, handing Alt+1 .. Alt+0 to the first ten.
     */
    method AddItems(apps: seq<AppEntry>)
      modifies this`rows, this`accelMap
      ensures |rows| == |Deduplicated(apps)|
      ensures rows == AllShown(seq(|Deduplicated(apps)|, j requires 0 <= j < |Deduplicated(apps)| => RowOf(Deduplicated(apps)[j])))
      ensures accelMap == KeyMap(Min(|AcceleratorKeys|, |rows|))
    {
      var kept := StripDuplicates(apps);
      ghost var base := seq(|kept|, j requires 0 <= j < |kept| => RowOf(kept[j]));
      var i := 0;
      accelMap := map[];
      rows := [];
      var l := 0;
      while l < |kept|
        invariant 0 <= l <= |kept|
        invariant i == Min(|AcceleratorKeys|, l)
        invariant rows == AllShown(base[..l])
        invariant accelMap == KeyMap(i)
      {
        var row := RowOf(kept[l]);
        if i < |AcceleratorKeys| {
          row := row.(visible := true, accelMask := Mod1Mask, accelKey := AcceleratorKeys[i]);
          accelMap := accelMap[AcceleratorKeys[i] := i];
          i := i + 1;
        } else {
          row := row.(visible := true, accelMask := Mod1Mask, accelKey := 0);
        }
        rows := rows + [row];
        l := l + 1;
      }
      assert base[..l] == base;
    }

    /**
     * The branch of combobox_changed taken when the entry holds only blanks
     * and the program list is enabled: every row becomes visible again and
     * the accelerators go back to the first ten rows.
     */
    method ShowAllPrograms()
      modifies this`rows, this`accelMap
      ensures rows == AllShown(old(rows))
      ensures accelMap == KeyMap(Min(|AcceleratorKeys|, |rows|))
    {
      var i := 0;
      accelMap := map[];
      ghost var before := rows;
      var l := 0;
      while l < |rows|
        invariant 0 <= l <= |rows| && |rows| == |before|
        invariant i == Min(|AcceleratorKeys|, l)
        invariant forall j :: 0 <= j < l ==> rows[j] == ShownWithDefaultKey(before[j], j)
        invariant forall j :: l <= j < |rows| ==> rows[j] == before[j]
        invariant accelMap == KeyMap(i)
      {
        assert rows[l] == before[l];
        if i < |AcceleratorKeys| {
          rows := rows[l := rows[l].(visible := true, accelMask := Mod1Mask, accelKey := AcceleratorKeys[i])];
          accelMap := accelMap[AcceleratorKeys[i] := i];
          i := i + 1;
        } else {
          rows := rows[l := rows[l].(visible := true, accelMask := Mod1Mask, accelKey := 0)];
        }
        l := l + 1;
      }
    }

    /**
     * panel_run_dialog_find_command_idle: with an empty list it only resets
     * the icon; otherwise it filters every row against text, hands the
     * accelerators to the first ten visible rows, and takes the icon and the
     * name of the found row.
     */
    method FindCommand(text: string, strstrcase: (string, string) -> bool)
      modifies this`rows, this`accelMap, this`icon, this`itemName
      ensures old(rows) == [] ==>
        rows == old(rows) && accelMap == old(accelMap) && icon == None && itemName == old(itemName)
      ensures old(rows) != [] ==>
        |rows| == |old(rows)| &&
        (forall i :: 0 <= i < |rows| ==> rows[i] == FilteredRow(old(rows), i, text, strstrcase)) &&
        accelMap == KeyMap(Min(|AcceleratorKeys|, ShownBefore(old(rows), text, strstrcase, |rows|))) &&
        match FoundRow(old(rows), text)
        case None => icon == None && itemName == None
        case Some(k) => icon == old(rows)[k].icon && itemName == old(rows)[k].name
    {
      if rows == [] {
        icon := None;
        return;
      }
      ghost var input := rows;
      var fuzzy, visibleIdx, found := FilterRows(text, strstrcase);
      PassDone(input, text, strstrcase, Pass(rows, fuzzy, visibleIdx, found, accelMap));
      if found.Some? {
        icon := rows[found.value].icon;
        itemName := rows[found.value].name;
      } else {
        icon := None;
        itemName := None;
      }
    }

    /** The do-while loop of panel_run_dialog_find_command_idle, over every row of the list. */
    method FilterRows(text: string, strstrcase: (string, string) -> bool)
      returns (fuzzy: bool, visibleIdx: nat, found: Option<nat>)
      modifies this`rows, this`accelMap
      ensures PassAfter(old(rows), text, strstrcase, Pass(rows, fuzzy, visibleIdx, found, accelMap), |old(rows)|)
    {
      ghost var input := rows;
      fuzzy := false;
      visibleIdx := 0;
      found := None;
      accelMap := map[];
      var k := 0;
      PassStart(input, text, strstrcase);
      while k < |rows|
        invariant |rows| == |input| && 0 <= k <= |rows|
        invariant PassAfter(input, text, strstrcase, Pass(rows, fuzzy, visibleIdx, found, accelMap), k)
      {
        ghost var before := Pass(rows, fuzzy, visibleIdx, found, accelMap);
        FindStepAdvances(input, text, strstrcase, before, k);
        fuzzy, visibleIdx, found := FilterRow(k, text, strstrcase, fuzzy, visibleIdx, found);
        k := k + 1;
      }
    }

    /**
     * One pass of the do-while loop of panel_run_dialog_find_command_idle on
     * row k: the match test (skipped once a fuzzy match was seen), the
     * visible flag, and an accelerator when fewer than ten were handed out.
     */
    method FilterRow(k: nat, text: string, strstrcase: (string, string) -> bool,
                     fuzzy: bool, visibleIdx: nat, found: Option<nat>)
      returns (fuzzy': bool, visibleIdx': nat, found': Option<nat>)
      requires k < |rows|
      modifies this`rows, this`accelMap
      ensures Pass(rows, fuzzy', visibleIdx', found', accelMap) ==
        FindStep(Pass(old(rows), fuzzy, visibleIdx, found, old(accelMap)), k, text, strstrcase)
    {
      var row := rows[k];
      var hit := false;
      fuzzy' := fuzzy;
      found' := found;
      if !fuzzy && Candidate(row) {
        var m := FuzzyCommandMatch(text, row.exec.value);
        fuzzy' := m.fuzzy;
        if m.matched {
          hit := true;
          found' := Some(k);
        }
      }
      var visible := hit || Mentions(row, text, strstrcase);
      if visible && visibleIdx < |AcceleratorKeys| {
        rows := rows[k := row.(visible := visible, accelMask := Mod1Mask, accelKey := AcceleratorKeys[visibleIdx])];
        accelMap := accelMap[AcceleratorKeys[visibleIdx] := visibleIdx];
        visibleIdx' := visibleIdx + 1;
      } else {
        rows := rows[k := row.(visible := visible, accelMask := 0, accelKey := 0)];
        visibleIdx' := visibleIdx;
      }
    }

    /** panel_run_dialog_accelerator_key_pressed: a key in the table moves the cursor to its row; any other key does nothing. */
    method AcceleratorKeyPressed(keyval: int)
      modifies this`cursor
      ensures keyval in accelMap ==> cursor == Some(accelMap[keyval])
      ensures keyval !in accelMap ==> cursor == old(cursor)
    {
      if keyval in accelMap {
        cursor := Some(accelMap[keyval]);
      }
    }
  }
}
