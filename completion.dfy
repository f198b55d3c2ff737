/**
 * Tab completion of the run dialog: fill_files_from, fill_executables and
 * panel_run_dialog_update_completion of mate-panel/panel-run-dialog.c.
 *
 * The file system is a value handed to the operations: the listing readdir
 * gives for each directory that opendir can open, and the names for which
 * g_file_test reports a directory, a regular file or an executable. The list
 * of files found on $PATH (fill_possible_executables) is given to the
 * completion state when it is made.
 */
module Completion {
  import opened Options
  import opened GLibStrings
  import History

  /** The d_type of a directory entry, as far as fill_files_from looks at it. */
  datatype EntryKind = Directory | Symlink | OtherKind

  datatype DirEntry = DirEntry(name: string, kind: EntryKind)

  datatype FileSystem = FileSystem(
    listings: map<string, seq<DirEntry>>,
    directories: set<string>,
    regularFiles: set<string>,
    executableFiles: set<string>)

  // ---------------------------------------------------------------------------
  // The completion prefix

  /** A byte of UTF-8 text: what a C char holds. */
  type Byte = b: int | 0 <= b < 0x100

  /**
   * The first byte of the UTF-8 encoding of c. The completion code compares
   * and stores only the first byte of a name (a C char), so names whose first
   * letters share a lead byte, such as 'é' and 'è', complete one another.
   */
  function LeadByte(c: char): (b: Byte)
    ensures (c as int < 0x80) <==> b < 0x80
    ensures c as int < 0x80 ==> b == c as int
  {
    var n := c as int;
    if n < 0x80 then n
    else if n < 0x800 then 0xC0 + n / 0x40
    else if n < 0x1_0000 then 0xE0 + n / 0x1000
    else 0xF0 + n / 0x4_0000
  }

  // ---------------------------------------------------------------------------
  // fill_files_from

  /** The entry is a directory, or a symbolic link that leads to one. */
  predicate IsDirectoryEntry(e: DirEntry, dirname: string, fs: FileSystem) {
    e.kind == Directory || (e.kind == Symlink && BuildFilename(dirname, e.name) in fs.directories)
  }

  /** The completion item for an entry: its name under dirprefix, with a '/' after a directory. */
  function ItemFor(e: DirEntry, dirname: string, dirprefix: string, fs: FileSystem): string {
    BuildFilename(dirprefix, e.name) + (if IsDirectoryEntry(e, dirname, fs) then "/" else "")
  }

  /** The first byte of the entry name is the completion prefix. */
  predicate StartsWith(name: string, prefix: Byte) {
    name != [] && LeadByte(name[0]) == prefix
  }

  /** The items for the entries of a listing whose names start with prefix, in listing order. */
  function ItemsFor(entries: seq<DirEntry>, dirname: string, dirprefix: string, prefix: Byte, fs: FileSystem): (r: seq<string>)
    ensures |r| <= |entries|
  {
    if entries == [] then []
    else
      var n := |entries| - 1;
      ItemsFor(entries[..n], dirname, dirprefix, prefix, fs) +
        (if StartsWith(entries[n].name, prefix) then [ItemFor(entries[n], dirname, dirprefix, fs)] else [])
  }

  /** fill_files_from: the items prepended while reading the directory; nothing when it cannot be opened. */
  function FilesFrom(dirname: string, dirprefix: string, prefix: Byte, fs: FileSystem): (r: seq<string>)
    ensures dirname !in fs.listings ==> r == []
    ensures dirname in fs.listings ==> |r| <= |fs.listings[dirname]|
  {
    if dirname !in fs.listings then []
    else History.Reverse(ItemsFor(fs.listings[dirname], dirname, dirprefix, prefix, fs))
  }

  lemma {:induction false} ItemsForMembers(entries: seq<DirEntry>, dirname: string, dirprefix: string, prefix: Byte, fs: FileSystem, item: string)
    ensures item in ItemsFor(entries, dirname, dirprefix, prefix, fs) <==>
      exists e :: e in entries && StartsWith(e.name, prefix) && item == ItemFor(e, dirname, dirprefix, fs)
    decreases |entries|
  {
    if entries != [] {
      var n := |entries| - 1;
      ItemsForMembers(entries[..n], dirname, dirprefix, prefix, fs, item);
      assert entries == entries[..n] + [entries[n]];
      assert forall e :: e in entries <==> e in entries[..n] || e == entries[n];
    }
  }

  /**
   * fill_files_from offers exactly one item per entry of the directory whose
   * name starts with the prefix: the name under dirprefix, with '/' after a
   * directory; it offers nothing for a directory it cannot open.
   */
  lemma FilesFromMembers(dirname: string, dirprefix: string, prefix: Byte, fs: FileSystem, item: string)
    ensures item in FilesFrom(dirname, dirprefix, prefix, fs) <==>
      dirname in fs.listings &&
      exists e :: e in fs.listings[dirname] && StartsWith(e.name, prefix) &&
        item == ItemFor(e, dirname, dirprefix, fs)
  {
    if dirname in fs.listings {
      var items := ItemsFor(fs.listings[dirname], dirname, dirprefix, prefix, fs);
      History.ReverseMembers(items, item);
      ItemsForMembers(fs.listings[dirname], dirname, dirprefix, prefix, fs, item);
    }
  }

  // ---------------------------------------------------------------------------
  // fill_executables

  /** A file of $PATH that completes the prefix: its basename starts with it and it is a regular, executable file. */
  predicate Qualifies(filename: string, prefix: Byte, fs: FileSystem) {
    LeadByte(Basename(filename)[0]) == prefix && filename in fs.regularFiles && filename in fs.executableFiles
  }

  /** The basenames of the qualifying files, in the order of the list. */
  function QualifyingNames(possible: seq<string>, prefix: Byte, fs: FileSystem): (r: seq<string>)
    ensures |r| <= |possible|
  {
    if possible == [] then []
    else
      var n := |possible| - 1;
      QualifyingNames(possible[..n], prefix, fs) +
        (if Qualifies(possible[n], prefix, fs) then [Basename(possible[n])] else [])
  }

  /** What fill_executables returns: nothing as soon as one name is already an item, else the names in reverse. */
  function Executables(possible: seq<string>, existing: seq<string>, prefix: Byte, fs: FileSystem): (r: seq<string>)
    ensures |r| <= |possible|
  {
    var names := QualifyingNames(possible, prefix, fs);
    if exists x :: x in names && x in existing then [] else History.Reverse(names)
  }

  lemma {:induction false} QualifyingNamesGrow(possible: seq<string>, prefix: Byte, fs: FileSystem, k: nat, x: string)
    requires k <= |possible|
    requires x in QualifyingNames(possible[..k], prefix, fs)
    ensures x in QualifyingNames(possible, prefix, fs)
    decreases |possible| - k
  {
    if k < |possible| {
      assert possible[..k + 1][..k] == possible[..k];
      QualifyingNamesGrow(possible, prefix, fs, k + 1, x);
    } else {
      assert possible[..k] == possible;
    }
  }

  lemma QualifyingNamesSnoc(possible: seq<string>, prefix: Byte, fs: FileSystem, l: nat)
    requires l < |possible|
    ensures QualifyingNames(possible[..l + 1], prefix, fs) ==
      QualifyingNames(possible[..l], prefix, fs) +
        (if Qualifies(possible[l], prefix, fs) then [Basename(possible[l])] else [])
  {
    assert possible[..l + 1][..l] == possible[..l];
  }

  /** The loop of fill_executables. */
  method FillExecutables(possible: seq<string>, existing: seq<string>, prefix: Byte, fs: FileSystem)
    returns (list: seq<string>)
    ensures list == Executables(possible, existing, prefix, fs)
  {
    list := [];
    var l := 0;
    while l < |possible|
      invariant 0 <= l <= |possible|
      invariant forall x :: x in QualifyingNames(possible[..l], prefix, fs) ==> x !in existing
      invariant list == History.Reverse(QualifyingNames(possible[..l], prefix, fs))
    {
      var filename := possible[l];
      var basename := Basename(filename);
      FillStep(possible, existing, prefix, fs, l);
      if Qualifies(filename, prefix, fs) {
        if basename in existing {
          return [];
        }
        list := [basename] + list;
      }
      l := l + 1;
    }
    assert possible[..l] == possible;
    ExecutablesWhenNew(possible, existing, prefix, fs);
  }

  /** One pass of the loop of fill_executables, on file l of the list. */
  lemma FillStep(possible: seq<string>, existing: seq<string>, prefix: Byte, fs: FileSystem, l: nat)
    requires l < |possible|
    requires forall x :: x in QualifyingNames(possible[..l], prefix, fs) ==> x !in existing
    ensures Qualifies(possible[l], prefix, fs) && Basename(possible[l]) in existing ==>
      Executables(possible, existing, prefix, fs) == []
    ensures !(Qualifies(possible[l], prefix, fs) && Basename(possible[l]) in existing) ==>
      forall x :: x in QualifyingNames(possible[..l + 1], prefix, fs) ==> x !in existing
    ensures Qualifies(possible[l], prefix, fs) ==>
      History.Reverse(QualifyingNames(possible[..l + 1], prefix, fs)) ==
        [Basename(possible[l])] + History.Reverse(QualifyingNames(possible[..l], prefix, fs))
    ensures !Qualifies(possible[l], prefix, fs) ==>
      QualifyingNames(possible[..l + 1], prefix, fs) == QualifyingNames(possible[..l], prefix, fs)
  {
    var before := QualifyingNames(possible[..l], prefix, fs);
    QualifyingNamesSnoc(possible, prefix, fs, l);
    if Qualifies(possible[l], prefix, fs) {
      History.ReverseSnoc(before, Basename(possible[l]));
      if Basename(possible[l]) in existing {
        QualifyingNamesGrow(possible, prefix, fs, l + 1, Basename(possible[l]));
      }
    } else {
      assert before + [] == before;
    }
  }

  /** With none of the names already an item, fill_executables offers them all, in reverse. */
  lemma ExecutablesWhenNew(possible: seq<string>, existing: seq<string>, prefix: Byte, fs: FileSystem)
    requires forall x :: x in QualifyingNames(possible, prefix, fs) ==> x !in existing
    ensures Executables(possible, existing, prefix, fs) == History.Reverse(QualifyingNames(possible, prefix, fs))
  {
  }

  /**
   * fill_executables offers the basenames of the regular executable files of
   * $PATH that start with the prefix, none of which is an item yet; once one
   * of them is an item it offers nothing at all.
   */
  lemma ExecutablesSpec(possible: seq<string>, existing: seq<string>, prefix: Byte, fs: FileSystem)
    ensures var r := Executables(possible, existing, prefix, fs);
      (forall x :: x in r ==> x !in existing && StartsWith(x, prefix)) &&
      ((exists f :: f in possible && Qualifies(f, prefix, fs) && Basename(f) in existing) ==> r == []) &&
      ((forall f :: f in possible && Qualifies(f, prefix, fs) ==> Basename(f) !in existing) ==>
        forall f :: f in possible && Qualifies(f, prefix, fs) ==> Basename(f) in r)
  {
    var names := QualifyingNames(possible, prefix, fs);
    forall x | x in names ensures StartsWith(x, prefix) && exists f :: f in possible && Qualifies(f, prefix, fs) && Basename(f) == x {
      QualifyingNamesFrom(possible, prefix, fs, x);
    }
    forall f | f in possible && Qualifies(f, prefix, fs) ensures Basename(f) in names {
      QualifyingNamesHas(possible, prefix, fs, f);
    }
    forall x ensures x in History.Reverse(names) <==> x in names {
      History.ReverseMembers(names, x);
    }
  }

  lemma {:induction false} QualifyingNamesFrom(possible: seq<string>, prefix: Byte, fs: FileSystem, x: string)
    requires x in QualifyingNames(possible, prefix, fs)
    ensures StartsWith(x, prefix)
    ensures exists f :: f in possible && Qualifies(f, prefix, fs) && Basename(f) == x
    decreases |possible|
  {
    var n := |possible| - 1;
    if x in QualifyingNames(possible[..n], prefix, fs) {
      QualifyingNamesFrom(possible[..n], prefix, fs, x);
      var f :| f in possible[..n] && Qualifies(f, prefix, fs) && Basename(f) == x;
      assert f in possible;
    } else {
      assert possible[n] in possible;
    }
  }

  lemma {:induction false} QualifyingNamesHas(possible: seq<string>, prefix: Byte, fs: FileSystem, f: string)
    requires f in possible && Qualifies(f, prefix, fs)
    ensures Basename(f) in QualifyingNames(possible, prefix, fs)
    decreases |possible|
  {
    var n := |possible| - 1;
    if possible[n] != f {
      assert f in possible[..n] by {
        var i :| 0 <= i < |possible| && possible[i] == f;
        assert possible[..n][i] == f;
      }
      QualifyingNamesHas(possible[..n], prefix, fs, f);
    }
  }

  /**
   * Once the names fill_executables offered are added to the items, asking
   * again with the same prefix offers nothing.
   */
  lemma ExecutablesOnlyOnce(possible: seq<string>, existing: seq<string>, prefix: Byte, fs: FileSystem)
    requires Executables(possible, existing, prefix, fs) != []
    ensures Executables(possible, existing + Executables(possible, existing, prefix, fs), prefix, fs) == []
  {
    var names := QualifyingNames(possible, prefix, fs);
    var r := Executables(possible, existing, prefix, fs);
    assert r == History.Reverse(names);
    assert names != [];
    var x := names[0];
    History.ReverseMembers(names, x);
    assert x in existing + r;
  }

  // ---------------------------------------------------------------------------
  // panel_run_dialog_update_completion

  /** Where update_completion looks: nothing, or a directory, its prefix for items, the first byte of the basename, and whether $PATH is searched too. */
  datatype Plan = NoCompletion | Complete(dirname: string, dirprefix: string, prefix: Byte, withExecutables: bool)

  /** The decisions of update_completion for the typed text. */
  function CompletionPlan(text: string, home: string): (r: Plan)
    requires text != []
    ensures r.Complete? ==> r.prefix != '/' as int && r.prefix != '.' as int
    ensures r.Complete? ==> (r.withExecutables <==> '/' !in text)
    ensures r.Complete? && IsAbsolute(text) ==> r.dirname == r.dirprefix && IsAbsolute(r.dirname)
  {
    var prefix := LeadByte(Basename(text)[0]);
    if prefix == '/' as int || prefix == '.' as int then NoCompletion
    else if text[0] == '/' then Complete(Dirname(text), Dirname(text), prefix, false)
    else if '/' !in text then Complete(BuildFilename(home, ""), "", prefix, true)
    else Complete(BuildFilename(home, Dirname(text)), Dirname(text), prefix, false)
  }

  /** The dir_hash key "dirprefix/prefix"; its last character stands for the prefix byte. */
  function ScanKey(dirprefix: string, prefix: Byte): string {
    dirprefix + "/" + [prefix as char]
  }

  /**
   * Typing dir/name completes the names that start with the first byte of
   * name in dir: as it stands when dir is absolute, under the home directory
   * when it is not.
   */
  lemma CompletionPlanOfPath(dir: string, name: string, home: string)
    requires dir != [] && dir[|dir| - 1] != '/'
    requires name != [] && '/' !in name && name[0] != '.'
    ensures CompletionPlan(dir + "/" + name, home) ==
      Complete(if dir[0] == '/' then dir else BuildFilename(home, dir), dir, LeadByte(name[0]), false)
  {
    var text := dir + "/" + name;
    assert text == (dir + "/") + name + [];
    BasenameOfPath(dir + "/", name, []);
    DirnameOfPath(dir, name);
    assert text[0] == dir[0];
    assert text[|dir|] == '/';
  }

  /** Typing a bare word completes its first byte in the home directory and among the executables of $PATH. */
  lemma CompletionPlanOfWord(word: string, home: string)
    requires word != [] && '/' !in word && word[0] != '.'
    ensures CompletionPlan(word, home) == Complete(home, "", LeadByte(word[0]), true)
  {
    assert word == [] + word + [];
    BasenameOfPath([], word, []);
  }

  /**
   * No completion at all when the basename of the text starts with '.': the
   * text is a directory part, a name starting with '.', and any trailing
   * slashes.
   */
  lemma NoCompletionForDotOrSlash(dir: string, name: string, tail: string, home: string)
    requires name != [] && '/' !in name && name[0] == '.'
    requires dir == [] || dir[|dir| - 1] == '/'
    requires forall j :: 0 <= j < |tail| ==> tail[j] == '/'
    ensures CompletionPlan(dir + name + tail, home) == NoCompletion
  {
    BasenameOfPath(dir, name, tail);
  }

  /**
   * In the home directory, the text "é" completes the file "èx": both letters
   * start with the byte 0xC3, which is also the byte of the key recorded.
   */
  lemma SharedLeadByte(home: string, fs: FileSystem)
    requires home in fs.listings && fs.listings[home] == [DirEntry("èx", OtherKind)]
    ensures CompletionPlan("é", home) == Complete(BuildFilename(home, ""), "", 0xC3, true)
    ensures FilesFrom(home, "", 0xC3, fs) == ["èx"]
    ensures ScanKey("", LeadByte('é')) == ScanKey("", LeadByte('à')) == ScanKey("", LeadByte('ü'))
  {
    assert "é" == [] + "é" + [];
    BasenameOfPath([], "é", []);
    var entries := fs.listings[home];
    assert StartsWith(entries[0].name, 0xC3);
    assert entries[..0] == [];
    assert !IsDirectoryEntry(entries[0], home, fs);
    assert "èx" + "" == "èx";
    assert ItemFor(entries[0], home, "", fs) == "èx";
    assert ItemsFor(entries[..0], home, "", 0xC3, fs) == [];
    assert ItemsFor(entries, home, "", 0xC3, fs) == [] + ["èx"];
    assert History.Reverse(["èx"]) == ["èx"];
  }

  /** No completion either for a text made only of '/', whose basename is "/". */
  lemma NoCompletionForSlashes(text: string)
    requires text != [] && forall j :: 0 <= j < |text| ==> text[j] == '/'
    ensures forall home :: CompletionPlan(text, home) == NoCompletion
  {
    BasenameOfSlashes(text);
  }

  /** No element occurs twice. */
  predicate NoDuplicates(xs: seq<string>) {
    forall i, j :: 0 <= i < j < |xs| ==> xs[i] != xs[j]
  }

  /** Inserting a new key keeps the log of scans in step with dir_hash, without repeats. */
  lemma ScanKeepsLog(log: seq<string>, keys: set<string>, key: string)
    requires (forall k :: k in log <==> k in keys) && NoDuplicates(log)
    requires key !in keys
    ensures (forall k :: k in log + [key] <==> k in keys + {key}) && NoDuplicates(log + [key])
  {
  }

  /** Appending keeps what was there as a prefix. */
  lemma AppendExtends(a: seq<string>, b: seq<string>)
    ensures a <= a + b
  {
    assert (a + b)[..|a|] == a;
  }

  /** The completion fields of the dialog. */
  class CompletionState {
    /** dir_hash: the "dirprefix/prefix" keys already scanned. */
    var dirHash: set<string>
    /** possible_executables: the files found on $PATH. */
    var possibleExecutables: seq<string>
    /** completion_items: every item offered so far. */
    var completionItems: seq<string>
    /** The list last given to the entry completion as its model. */
    var completionModel: seq<string>
    /** The keys in the order their directories were read. */
    ghost var scanLog: seq<string>

    /** Each key in dir_hash was scanned exactly once. */
    ghost predicate Valid()
      reads this`scanLog, this`dirHash
    {
      (forall k :: k in scanLog <==> k in dirHash) && NoDuplicates(scanLog)
    }

    constructor (possible: seq<string>)
      ensures Valid()
      ensures dirHash == {} && possibleExecutables == possible
      ensures completionItems == [] && completionModel == [] && scanLog == []
    {
      dirHash := {};
      possibleExecutables := possible;
      completionItems := [];
      completionModel := [];
      scanLog := [];
    }

    /**
     * panel_run_dialog_update_completion: works out where to look from the
     * text, then scans and records what it found.
     */
    method UpdateCompletion(text: string, fs: FileSystem, home: string)
      requires Valid()
      requires text != [] && !IsAsciiSpace(text[0])
      modifies this`dirHash, this`completionItems, this`completionModel, this`scanLog
      ensures Valid()
      ensures old(completionItems) <= completionItems
      ensures CompletionPlan(text, home).NoCompletion? ==>
        dirHash == old(dirHash) && completionItems == old(completionItems) &&
        completionModel == old(completionModel) && scanLog == old(scanLog)
      ensures CompletionPlan(text, home).Complete? ==>
        var plan := CompletionPlan(text, home);
        var key := ScanKey(plan.dirprefix, plan.prefix);
        var files := if key in old(dirHash) then [] else FilesFrom(plan.dirname, plan.dirprefix, plan.prefix, fs);
        var execs := if plan.withExecutables then Executables(possibleExecutables, old(completionItems), LeadByte(text[0]), fs) else [];
        dirHash == old(dirHash) + {key} &&
        scanLog == old(scanLog) + (if key in old(dirHash) then [] else [key]) &&
        completionItems == old(completionItems) + (files + execs) &&
        completionModel == (if files + execs == [] then old(completionModel) else files + execs)
    {
      var plan := CompletionPlan(text, home);
      if plan.NoCompletion? {
        return;
      }
      AddCompletions(plan, LeadByte(text[0]), fs);
    }

    /**
     * The second half of panel_run_dialog_update_completion: the executables
     * for a bare word, the directory scan when its "dirprefix/prefix" key is
     * new (the key is inserted first), and the append to completion_items.
     */
    method AddCompletions(plan: Plan, first: Byte, fs: FileSystem)
      requires Valid() && plan.Complete?
      modifies this`dirHash, this`completionItems, this`completionModel, this`scanLog
      ensures Valid()
      ensures old(completionItems) <= completionItems
      ensures var key := ScanKey(plan.dirprefix, plan.prefix);
        var files := if key in old(dirHash) then [] else FilesFrom(plan.dirname, plan.dirprefix, plan.prefix, fs);
        var execs := if plan.withExecutables then Executables(possibleExecutables, old(completionItems), first, fs) else [];
        dirHash == old(dirHash) + {key} &&
        scanLog == old(scanLog) + (if key in old(dirHash) then [] else [key]) &&
        completionItems == old(completionItems) + (files + execs) &&
        completionModel == (if files + execs == [] then old(completionModel) else files + execs)
    {
      var executables: seq<string> := [];
      if plan.withExecutables {
        executables := FillExecutables(possibleExecutables, completionItems, first, fs);
      }
      var key := ScanKey(plan.dirprefix, plan.prefix);
      var list: seq<string> := [];
      if key !in dirHash {
        ScanKeepsLog(scanLog, dirHash, key);
        dirHash := dirHash + {key};
        scanLog := scanLog + [key];
        list := FilesFrom(plan.dirname, plan.dirprefix, plan.prefix, fs);
      }
      list := list + executables;
      if list == [] {
        return;
      }
      completionModel := list;
      AppendExtends(completionItems, list);
      completionItems := completionItems + list;
    }
  }
}
