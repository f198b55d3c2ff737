/**
 * The command history of the run dialog: _panel_run_get_recent_programs_list
 * and _panel_run_save_recent_programs_list of mate-panel/panel-run-dialog.c.
 *
 * The three GSettings keys history-mate-run, history-max-size-mate-run and
 * history-reverse-mate-run are the fields of HistorySettings. Loading shows at
 * most max-size stored commands in the drop-down of the entry, reversed when
 * the reverse flag is set; saving writes the command just run first and then
 * the drop-down's other entries, put back into stored order.
 */
module History {

  /** The first n elements of xs (all of them when there are fewer). */
  function Take<T>(xs: seq<T>, n: nat): (r: seq<T>)
    ensures |r| == if n < |xs| then n else |xs|
    ensures r == xs[..|r|]
  {
    if n < |xs| then xs[..n] else xs
  }

  /** xs back to front. */
  function Reverse<T>(xs: seq<T>): (r: seq<T>)
    ensures |r| == |xs|
    ensures forall i :: 0 <= i < |xs| ==> r[i] == xs[|xs| - 1 - i]
  {
    if xs == [] then [] else [xs[|xs| - 1]] + Reverse(xs[..|xs| - 1])
  }

  /** xs with every element equal to c dropped, the others kept in order. */
  function Without(xs: seq<string>, c: string): (r: seq<string>)
    ensures c !in r
    ensures |r| <= |xs|
    ensures forall x :: x != c ==> multiset(r)[x] == multiset(xs)[x]
  {
    if xs == [] then []
    else
      assert multiset(xs) == multiset{xs[0]} + multiset(xs[1..]) by {
        assert xs == [xs[0]] + xs[1..];
      }
      if xs[0] == c then Without(xs[1..], c) else [xs[0]] + Without(xs[1..], c)
  }

  /** The commands the drop-down shows, in the order it shows them. */
  function Shown(items: seq<string>, maxSize: nat, reverse: bool): (r: seq<string>)
    ensures |r| == if maxSize < |items| then maxSize else |items|
    ensures forall i :: 0 <= i < |r| ==> r[i] == items[if reverse then |r| - 1 - i else i]
  {
    if reverse then Reverse(Take(items, maxSize)) else Take(items, maxSize)
  }

  /** The stored history after lastcommand is run with the drop-down showing displayed. */
  function Saved(displayed: seq<string>, lastcommand: string, maxSize: nat, reverse: bool): (r: seq<string>)
    ensures |r| <= maxSize
    ensures maxSize > 0 ==> r != [] && r[0] == lastcommand
  {
    if maxSize == 0 then []
    else
      var others := Without(displayed, lastcommand);
      Take([lastcommand] + (if reverse then Reverse(others) else others), maxSize)
  }

  /** Filtering distributes over concatenation, so the kept elements stay in order. */
  lemma {:induction false} WithoutAppend(a: seq<string>, b: seq<string>, c: string)
    ensures Without(a + b, c) == Without(a, c) + Without(b, c)
    decreases |a|
  {
    if a == [] {
      assert a + b == b;
    } else {
      assert (a + b)[0] == a[0];
      assert (a + b)[1..] == a[1..] + b;
      WithoutAppend(a[1..], b, c);
    }
  }

  /** Filtering commutes with reversal. */
  lemma {:induction false} WithoutReverse(xs: seq<string>, c: string)
    ensures Without(Reverse(xs), c) == Reverse(Without(xs, c))
    decreases |xs|
  {
    if xs != [] {
      var init := xs[..|xs| - 1];
      var last := xs[|xs| - 1];
      assert xs == init + [last];
      WithoutReverse(init, c);
      WithoutAppend([last], Reverse(init), c);
      WithoutAppend(init, [last], c);
      assert [last][1..] == [];
      var w := Without(init, c);
      if last == c {
        assert Without(xs, c) == w + [];
        assert w + [] == w;
      } else {
        assert Without(xs, c) == w + [last];
        assert (w + [last])[..|w|] == w;
      }
    }
  }

  /** Reversing twice gives the original sequence back. */
  lemma ReverseReverse<T>(xs: seq<T>)
    ensures Reverse(Reverse(xs)) == xs
  {
  }

  /** Reversing keeps the same elements. */
  lemma ReverseMembers<T>(xs: seq<T>, x: T)
    ensures x in Reverse(xs) <==> x in xs
  {
    var r := Reverse(xs);
    if x in xs {
      var i :| 0 <= i < |xs| && xs[i] == x;
      assert r[|xs| - 1 - i] == x;
    }
    if x in r {
      var i :| 0 <= i < |r| && r[i] == x;
      assert xs[|xs| - 1 - i] == x;
    }
  }

  /** The element appended last comes first once reversed. */
  lemma ReverseSnoc<T>(xs: seq<T>, x: T)
    ensures Reverse(xs + [x]) == [x] + Reverse(xs)
  {
    assert (xs + [x])[..|xs|] == xs;
  }

  /**
   * What saving promises: an empty history when the maximum is 0; otherwise
   * the command just run comes first and occurs exactly once, the history has
   * min(max, 1 + the number of other entries) elements, and the rest is the
   * drop-down's entries other than it, in the order shown or reversed when the
   * reverse flag is set, cut to fit.
   */
  lemma SavedShape(displayed: seq<string>, c: string, maxSize: nat, reverse: bool)
    ensures maxSize == 0 ==> Saved(displayed, c, maxSize, reverse) == []
    ensures maxSize > 0 ==>
      var s := Saved(displayed, c, maxSize, reverse);
      var others := Without(displayed, c);
      |s| == (if maxSize < 1 + |others| then maxSize else 1 + |others|) &&
      s[0] == c && multiset(s)[c] == 1 &&
      s[1..] == Take(if reverse then Reverse(others) else others, maxSize - 1)
  {
    if maxSize > 0 {
      var others := Without(displayed, c);
      var tail := if reverse then Reverse(others) else others;
      var t := Take(tail, maxSize - 1);
      var s := Saved(displayed, c, maxSize, reverse);
      assert s == [c] + t;
      ArrangedLacks(others, c, reverse, maxSize - 1);
      assert multiset(s)[c] == 1 by {
        assert multiset(s) == multiset([c]) + multiset(t);
        assert multiset(t)[c] == 0;
      }
      assert s[1..] == t;
    }
  }

  /** Reversing and cutting a list that lacks c gives a list that lacks c. */
  lemma ArrangedLacks(xs: seq<string>, c: string, reverse: bool, n: nat)
    requires c !in xs
    ensures c !in Take(if reverse then Reverse(xs) else xs, n)
  {
  }

  /**
   * Loading and then saving stores the newest command first and the older
   * ones in their stored order, whatever the reverse flag says: the flag only
   * changes how the drop-down shows them.
   */
  lemma LoadThenSave(items: seq<string>, c: string, maxSize: nat, reverse: bool)
    ensures Saved(Shown(items, maxSize, reverse), c, maxSize, reverse) ==
      (if maxSize == 0 then [] else Take([c] + Without(Take(items, maxSize), c), maxSize))
  {
    if reverse && maxSize > 0 {
      var t := Take(items, maxSize);
      WithoutReverse(t, c);
      ReverseReverse(Without(t, c));
    }
  }

  /**
   * Recording "a", "b", "c" and "a" with a maximum of 3 in append order, each
   * time from what the drop-down shows, leaves "a", "c", "b".
   */
  lemma RecordFourCommands()
    ensures var h1 := Saved(Shown([], 3, false), "a", 3, false);
            var h2 := Saved(Shown(h1, 3, false), "b", 3, false);
            var h3 := Saved(Shown(h2, 3, false), "c", 3, false);
            Saved(Shown(h3, 3, false), "a", 3, false) == ["a", "c", "b"]
  {
    var h1 := Saved(Shown([], 3, false), "a", 3, false);
    assert h1 == ["a"];
    var h2 := Saved(Shown(h1, 3, false), "b", 3, false);
    assert Without(["a"], "b") == ["a"];
    assert h2 == ["b", "a"];
    var h3 := Saved(Shown(h2, 3, false), "c", 3, false);
    assert Without(["b", "a"], "c") == ["b", "a"];
    assert h3 == ["c", "b", "a"];
    assert Without(["c", "b", "a"], "a") == ["c", "b"];
  }

  /** The three history keys of the org.mate.panel schema. */
  class HistorySettings {
    var items: seq<string>
    var maxSize: nat
    var reverse: bool

    constructor (items0: seq<string>, maxSize0: nat, reverse0: bool)
      ensures items == items0 && maxSize == maxSize0 && reverse == reverse0
    {
      items := items0;
      maxSize := maxSize0;
      reverse := reverse0;
    }

    /** _panel_run_get_recent_programs_list: prepends each item when reversed, appends it otherwise. */
    method RecentPrograms() returns (shown: seq<string>)
      ensures shown == Shown(items, maxSize, reverse)
    {
      shown := [];
      var i := 0;
      while i < maxSize && i < |items|
        invariant 0 <= i <= |items|
        invariant i <= maxSize
        invariant shown == if reverse then Reverse(items[..i]) else items[..i]
      {
        assert items[..i + 1][..i] == items[..i];
        if reverse {
          shown := [items[i]] + shown;
        } else {
          shown := shown + [items[i]];
        }
        i := i + 1;
      }
      assert items[..i] == Take(items, maxSize);
    }

    /**
     * _panel_run_save_recent_programs_list: fills an array with lastcommand
     * and the other displayed commands, reverses the part after the first
     * slot in place when the reverse flag is set, and stores the array cut
     * at the maximum size.
     */
    method SaveRecentPrograms(displayed: seq<string>, lastcommand: string)
      modifies this`items
      ensures items == Saved(displayed, lastcommand, maxSize, reverse)
    {
      if maxSize == 0 {
        items := [];
        return;
      }
      var arr := new string[|displayed| + 2];
      arr[0] := lastcommand;
      var added := CollectOthers(arr, displayed, lastcommand);
      if reverse {
        ReverseSlots(arr, added);
      }
      assert arr[..added + 1] == [lastcommand] + arr[1..added + 1];
      if maxSize < added + 1 {
        items := arr[..maxSize];
      } else {
        items := arr[..added + 1];
      }
    }
  }

  /** The do-while loop of the save: copies the commands other than lastcommand into slots 1, 2, ... */
  method CollectOthers(arr: array<string>, displayed: seq<string>, lastcommand: string) returns (added: nat)
    requires arr.Length == |displayed| + 2
    modifies arr
    ensures added + 1 < arr.Length
    ensures arr[0] == old(arr[0])
    ensures arr[1..added + 1] == Without(displayed, lastcommand)
  {
    added := 0;
    var k := 0;
    while k < |displayed|
      invariant 0 <= added <= k <= |displayed|
      invariant arr[0] == old(arr[0])
      invariant arr[1..added + 1] == Without(displayed[..k], lastcommand)
    {
      WithoutAppend(displayed[..k], [displayed[k]], lastcommand);
      assert displayed[..k + 1] == displayed[..k] + [displayed[k]];
      assert [displayed[k]][1..] == [];
      if displayed[k] != lastcommand {
        arr[added + 1] := displayed[k];
        added := added + 1;
      }
      k := k + 1;
    }
    assert displayed[..k] == displayed;
  }

  /** The index swap loop of the save: reverses slots 1 .. n of arr in place. */
  method ReverseSlots(arr: array<string>, n: nat)
    requires n < arr.Length
    modifies arr
    ensures arr[0] == old(arr[0])
    ensures arr[1..n + 1] == Reverse(old(arr[1..n + 1]))
  {
    ghost var others := arr[1..n + 1];
    var pos := 0;
    while pos < n / 2
      invariant 0 <= pos <= n / 2
      invariant arr[0] == old(arr[0])
      invariant forall j :: 1 <= j <= pos ==> arr[j] == others[n - j]
      invariant forall j :: pos < j <= n - pos ==> arr[j] == others[j - 1]
      invariant forall j :: n - pos < j <= n ==> arr[j] == others[n - j]
    {
      var tmp := arr[pos + 1];
      arr[pos + 1] := arr[n - pos];
      arr[n - pos] := tmp;
      pos := pos + 1;
    }
    assert n == 2 * pos || n == 2 * pos + 1;
    forall j | 1 <= j <= n
      ensures arr[j] == others[n - j]
    {
      if pos < j <= n - pos {
        assert j - 1 == n - j;
      }
    }
    assert arr[1..n + 1] == Reverse(others) by {
      forall i | 0 <= i < n
        ensures arr[1..n + 1][i] == Reverse(others)[i]
      {
        assert arr[1..n + 1][i] == arr[i + 1];
      }
    }
  }
}
