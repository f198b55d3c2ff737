/**
 * The application entries shown in the program list of the run dialog and
 * the "Strip duplicates" loop of panel_run_dialog_add_items_idle in
 * mate-panel/panel-run-dialog.c.
 *
 * The menu tree traversal and the sort by name that produce the input list
 * are not part of this model: the loop receives them as a sequence. It walks
 * the list once, remembering the display name of the entry before the current
 * one, and deletes the current link when both names are set and equal.
 */
module Applications {
  import opened Options

  /** A GIcon, known here only by the name it carries. */
  datatype Icon = Icon(name: string)

  /** What the loop and the list store read from one menu entry (NULL is None). */
  datatype AppEntry = AppEntry(
    icon: Option<Icon>,
    displayName: Option<string>,
    description: Option<string>,
    commandline: Option<string>,
    desktopPath: string)

  /** prev_name && entry_name && strcmp (entry_name, prev_name) == 0 */
  predicate SameName(prev: Option<string>, name: Option<string>) {
    prev.Some? && name.Some? && name.value == prev.value
  }

  /** Entry i is deleted: the input entry just before it has the same display name. */
  predicate DroppedAt(xs: seq<AppEntry>, i: int)
    requires 0 <= i < |xs|
  {
    0 < i && SameName(xs[i - 1].displayName, xs[i].displayName)
  }

  /** The entries the loop keeps, in input order. */
  function Deduplicated(xs: seq<AppEntry>): (r: seq<AppEntry>)
    ensures |r| <= |xs|
    ensures forall e :: e in r ==> e in xs
  {
    if xs == [] then []
    else
      var n := |xs| - 1;
      var init := Deduplicated(xs[..n]);
      assert forall e :: e in init ==> e in xs by {
        forall e | e in init ensures e in xs {
          var j :| 0 <= j < n && xs[..n][j] == e;
          assert xs[j] == e;
        }
      }
      init + (if DroppedAt(xs, n) then [] else [xs[n]])
  }

  /** a is b with some elements left out, the others kept in order. */
  predicate SubsequenceOf<T(==)>(a: seq<T>, b: seq<T>)
    decreases |b|
  {
    if b == [] then a == []
    else
      (a != [] && a[|a| - 1] == b[|b| - 1] && SubsequenceOf(a[..|a| - 1], b[..|b| - 1])) ||
      SubsequenceOf(a, b[..|b| - 1])
  }

  /** Deduplicated of one more input entry: that entry is added unless it is dropped. */
  lemma DeduplicatedSnoc(xs: seq<AppEntry>, k: int)
    requires 0 <= k < |xs|
    ensures Deduplicated(xs[..k + 1]) ==
      Deduplicated(xs[..k]) + (if DroppedAt(xs, k) then [] else [xs[k]])
  {
    assert xs[..k + 1][..k] == xs[..k];
    assert DroppedAt(xs[..k + 1], k) == DroppedAt(xs, k);
  }

  /** No two neighbouring entries carry the same (non-NULL) display name. */
  predicate NoAdjacentDuplicates(xs: seq<AppEntry>) {
    forall i :: 0 < i < |xs| ==> !SameName(xs[i - 1].displayName, xs[i].displayName)
  }

  /**
   * The "Strip duplicates" loop: deletes links from the list while walking
   * it, and leaves prev_name alone when a link is deleted.
   */
  method StripDuplicates(apps: seq<AppEntry>) returns (list: seq<AppEntry>)
    ensures list == Deduplicated(apps)
  {
    list := apps;
    var prev: Option<string> := None;
    var l := 0;
    ghost var k := 0;
    while l < |list|
      invariant 0 <= k <= |apps|
      invariant l == |Deduplicated(apps[..k])|
      invariant list == Deduplicated(apps[..k]) + apps[k..]
      invariant prev == if k == 0 then None else apps[k - 1].displayName
      decreases |list| - l
    {
      StripStep(apps, k, l, list);
      var name := list[l].displayName;
      if SameName(prev, name) {
        list := list[..l] + list[l + 1..];
      } else {
        prev := name;
        l := l + 1;
      }
      k := k + 1;
    }
    assert apps[..k] == apps;
  }

  /** One pass of the loop on the link of input entry k, which sits at position l. */
  lemma StripStep(apps: seq<AppEntry>, k: int, l: int, list: seq<AppEntry>)
    requires 0 <= k <= |apps| && l == |Deduplicated(apps[..k])|
    requires list == Deduplicated(apps[..k]) + apps[k..]
    ensures l < |list| <==> k < |apps|
    ensures k < |apps| ==> list[l] == apps[k]
    ensures k < |apps| && DroppedAt(apps, k) ==>
      l == |Deduplicated(apps[..k + 1])| && list[..l] + list[l + 1..] == Deduplicated(apps[..k + 1]) + apps[k + 1..]
    ensures k < |apps| && !DroppedAt(apps, k) ==>
      l + 1 == |Deduplicated(apps[..k + 1])| && list == Deduplicated(apps[..k + 1]) + apps[k + 1..]
  {
    if k < |apps| {
      DeduplicatedSnoc(apps, k);
      var init := Deduplicated(apps[..k]);
      assert apps[k..] == [apps[k]] + apps[k + 1..];
      assert list == init + [apps[k]] + apps[k + 1..];
      if DroppedAt(apps, k) {
        assert list[..l] == init;
        assert list[l + 1..] == apps[k + 1..];
      }
    }
  }

  /** The loop only deletes: the result is a subsequence of its input. */
  lemma {:induction false} DeduplicatedSubsequence(xs: seq<AppEntry>)
    ensures SubsequenceOf(Deduplicated(xs), xs)
    decreases |xs|
  {
    if xs != [] {
      var n := |xs| - 1;
      DeduplicatedSubsequence(xs[..n]);
      var r := Deduplicated(xs);
      if !DroppedAt(xs, n) {
        assert r[..|r| - 1] == Deduplicated(xs[..n]);
        assert r[|r| - 1] == xs[|xs| - 1];
      } else {
        assert r == Deduplicated(xs[..n]) + [];
        assert r == Deduplicated(xs[..n]);
        assert xs[..|xs| - 1] == xs[..n];
      }
    }
  }

  /** The last kept entry has the display name of the last input entry. */
  lemma {:induction false} DeduplicatedLastName(xs: seq<AppEntry>)
    requires xs != []
    ensures Deduplicated(xs) != []
    ensures Deduplicated(xs)[|Deduplicated(xs)| - 1].displayName == xs[|xs| - 1].displayName
    decreases |xs|
  {
    var n := |xs| - 1;
    if DroppedAt(xs, n) {
      DeduplicatedLastName(xs[..n]);
    }
  }

  /** No two neighbouring entries of the result have the same display name. */
  lemma {:induction false} DeduplicatedNoAdjacentDuplicates(xs: seq<AppEntry>)
    ensures NoAdjacentDuplicates(Deduplicated(xs))
    decreases |xs|
  {
    if xs != [] {
      var n := |xs| - 1;
      var init := Deduplicated(xs[..n]);
      DeduplicatedNoAdjacentDuplicates(xs[..n]);
      if !DroppedAt(xs, n) && init != [] {
        DeduplicatedLastName(xs[..n]);
        var r := Deduplicated(xs);
        assert r == init + [xs[n]];
        forall i | 0 < i < |r|
          ensures !SameName(r[i - 1].displayName, r[i].displayName)
        {
          if i < |init| {
            assert r[i - 1] == init[i - 1] && r[i] == init[i];
          } else {
            assert r[i - 1] == init[|init| - 1] && r[i] == xs[n];
          }
        }
      }
    }
  }

  /** Every display name of the input is still shown: only repeats are deleted. */
  lemma {:induction false} DeduplicatedKeepsNames(xs: seq<AppEntry>, i: int)
    requires 0 <= i < |xs|
    ensures exists j :: 0 <= j < |Deduplicated(xs)| && Deduplicated(xs)[j].displayName == xs[i].displayName
    decreases |xs|
  {
    var n := |xs| - 1;
    var r := Deduplicated(xs);
    var init := Deduplicated(xs[..n]);
    if i < n {
      DeduplicatedKeepsNames(xs[..n], i);
      var j :| 0 <= j < |init| && init[j].displayName == xs[..n][i].displayName;
      assert r[j] == init[j];
    } else if !DroppedAt(xs, n) {
      assert r[|r| - 1] == xs[n];
    } else {
      DeduplicatedLastName(xs[..n]);
      assert r == init;
      assert init[|init| - 1].displayName == xs[n - 1].displayName == xs[n].displayName;
    }
  }

  /** Every entry whose display name differs from the one before it (the first of its run) is kept. */
  lemma {:induction false} FirstOfRunKept(xs: seq<AppEntry>, i: int)
    requires 0 <= i < |xs|
    requires i == 0 || xs[i - 1].displayName != xs[i].displayName
    ensures xs[i] in Deduplicated(xs)
    decreases |xs|
  {
    var n := |xs| - 1;
    if i < n {
      FirstOfRunKept(xs[..n], i);
    } else {
      assert !DroppedAt(xs, n);
    }
  }

  /** Entries are grouped by display name: a name that comes back is also the name of the entry just before. */
  predicate GroupedByName(xs: seq<AppEntry>) {
    forall i, j :: 0 <= i < j < |xs| && SameName(xs[i].displayName, xs[j].displayName) ==>
      xs[j - 1].displayName == xs[j].displayName
  }

  /** On a list grouped by display name, every non-NULL display name is kept exactly once. */
  lemma {:induction false} DeduplicatedDistinct(xs: seq<AppEntry>)
    requires GroupedByName(xs)
    ensures forall i, j :: 0 <= i < j < |Deduplicated(xs)| ==>
      !SameName(Deduplicated(xs)[i].displayName, Deduplicated(xs)[j].displayName)
    decreases |xs|
  {
    if xs != [] {
      var n := |xs| - 1;
      var init := Deduplicated(xs[..n]);
      var r := Deduplicated(xs);
      assert GroupedByName(xs[..n]) by {
        forall i, j | 0 <= i < j < n && SameName(xs[..n][i].displayName, xs[..n][j].displayName)
          ensures xs[..n][j - 1].displayName == xs[..n][j].displayName
        {
          assert xs[i] == xs[..n][i] && xs[j] == xs[..n][j];
        }
      }
      DeduplicatedDistinct(xs[..n]);
      if !DroppedAt(xs, n) {
        assert r == init + [xs[n]];
        forall i | 0 <= i < |init|
          ensures !SameName(r[i].displayName, xs[n].displayName)
        {
          assert r[i] == init[i] && init[i] in xs[..n];
          var k :| 0 <= k < n && xs[..n][k] == init[i];
          assert !SameName(xs[k].displayName, xs[n].displayName);
        }
      }
    }
  }
}
