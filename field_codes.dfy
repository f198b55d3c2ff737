/**
 * remove_parameters of mate-panel/panel-run-dialog.c: strips the field codes
 * of the "The Exec key" section of the freedesktop.org Desktop Entry
 * Specification from an Exec line before it is put in the run dialog's entry.
 *
 * The C loop looks for the first '%' again after every change. It erases
 * "%%" down to one '%' (which is then examined afresh), erases a '%' and
 * one of the letters U F N D f u d n m i c k v, and changes nothing for any
 * other follower, so that it spins forever on such a '%' or on a '%' that
 * ends the text. The model keeps that behaviour: Stripped is None for
 * those inputs, and NeverTerminates shows that the loop guard stays true.
 */
module FieldCodes {
  import opened Options

  /** The letters erased together with the '%' in front of them. */
  predicate IsFieldCode(c: char) {
    c == 'U' || c == 'F' || c == 'N' || c == 'D' || c == 'f' || c == 'u' || c == 'd' ||
    c == 'n' || c == 'm' || c == 'i' || c == 'c' || c == 'k' || c == 'v'
  }

  /** strstr (str, "%"): the index of the first '%'. */
  function FirstPercent(s: string): (p: nat)
    requires '%' in s
    ensures p < |s| && s[p] == '%'
    ensures forall j :: 0 <= j < p ==> s[j] != '%'
  {
    if s[0] == '%' then 0
    else
      assert '%' in s[1..] by { var k :| 0 <= k < |s| && s[k] == '%'; assert s[1..][k - 1] == '%'; }
      1 + FirstPercent(s[1..])
  }

  /** p[1] for the '%' at index p of the C string: NUL when the '%' is the last character. */
  function CharAfter(s: string, p: nat): char
    requires p < |s|
  {
    if p + 1 < |s| then s[p + 1] else '\0'
  }

  /** One pass of the while loop of remove_parameters. */
  function Step(s: string): (r: string)
    requires '%' in s
    ensures |s| - 2 <= |r| <= |s|
    ensures FirstPercent(s) <= |r| && r[..FirstPercent(s)] == s[..FirstPercent(s)]
  {
    var p := FirstPercent(s);
    var c := CharAfter(s, p);
    if c == '%' then s[..p] + s[p + 1..]
    else if IsFieldCode(c) then s[..p] + s[p + 2..]
    else s
  }

  /** The loop state after n passes (it stops changing once no '%' is left). */
  function Run(s: string, n: nat): string
  {
    if n == 0 then s
    else
      var t := Run(s, n - 1);
      if '%' in t then Step(t) else t
  }

  /** Some '%' ends the text or is followed by a character that is neither '%' nor a field code. */
  predicate HasStuckPercent(s: string) {
    exists i :: 0 <= i < |s| && s[i] == '%' && (i + 1 == |s| || (s[i + 1] != '%' && !IsFieldCode(s[i + 1])))
  }

  /** What remove_parameters returns; None when its loop never ends. */
  function Stripped(s: string): (r: Option<string>)
    ensures r.Some? ==> '%' !in r.value && |r.value| <= |s|
    decreases |s|
  {
    if s == [] then Some([])
    else if s[0] != '%' then
      (match Stripped(s[1..]) case None => None case Some(t) => Some([s[0]] + t))
    else if |s| == 1 then None
    else if s[1] == '%' then Stripped(s[1..])
    else if IsFieldCode(s[1]) then Stripped(s[2..])
    else None
  }

  /**
   * An independent reading of the erasure, as one left-to-right scan: every
   * '%' is dropped, and so is a field-code letter that follows a '%'.
   */
  function Kept(s: string, afterPercent: bool): (r: string)
    ensures '%' !in r
    ensures |r| <= |s|
  {
    if s == [] then []
    else if s[0] == '%' then Kept(s[1..], true)
    else if afterPercent && IsFieldCode(s[0]) then Kept(s[1..], false)
    else [s[0]] + Kept(s[1..], false)
  }

  /** The loop ends exactly on the inputs without a stuck '%'. */
  lemma {:induction false} StrippedDefinedIff(s: string)
    ensures Stripped(s).None? <==> HasStuckPercent(s)
    decreases |s|
  {
    if s == [] {
    } else if s[0] != '%' {
      StrippedDefinedIff(s[1..]);
      ShiftStuck(s, 1);
    } else if |s| == 1 {
      assert s[0] == '%';
    } else if s[1] == '%' {
      StrippedDefinedIff(s[1..]);
      ShiftStuck(s, 1);
    } else if IsFieldCode(s[1]) {
      StrippedDefinedIff(s[2..]);
      ShiftStuck(s, 2);
      assert !(s[1] == '%');
    } else {
      assert s[0] == '%' && s[1] != '%' && !IsFieldCode(s[1]);
    }
  }

  /** Dropping k leading characters that hold no stuck '%' keeps the stuck ones. */
  lemma ShiftStuck(s: string, k: nat)
    requires 1 <= k <= 2 && k <= |s|
    requires k == 1 ==> s[0] != '%' || (|s| > 1 && s[1] == '%')
    requires k == 2 ==> s[0] == '%' && IsFieldCode(s[1])
    ensures HasStuckPercent(s) <==> HasStuckPercent(s[k..])
  {
    var t := s[k..];
    if HasStuckPercent(s) {
      var i :| 0 <= i < |s| && s[i] == '%' && (i + 1 == |s| || (s[i + 1] != '%' && !IsFieldCode(s[i + 1])));
      assert i >= k;
      assert t[i - k] == '%';
    }
    if HasStuckPercent(t) {
      var i :| 0 <= i < |t| && t[i] == '%' && (i + 1 == |t| || (t[i + 1] != '%' && !IsFieldCode(t[i + 1])));
      assert s[i + k] == '%';
    }
  }

  /** When the loop ends, its result is the one-scan reading of the erasure. */
  lemma {:induction false} StrippedIsKept(s: string)
    requires Stripped(s).Some?
    ensures Stripped(s) == Some(Kept(s, false))
    decreases |s|
  {
    if s != [] {
      if s[0] != '%' {
        StrippedIsKept(s[1..]);
      } else if s[1] == '%' {
        StrippedIsKept(s[1..]);
        assert Kept(s, false) == Kept(s[1..], true) == Kept(s[2..], true);
        assert Kept(s[1..], false) == Kept(s[2..], true);
      } else {
        StrippedIsKept(s[2..]);
        assert Kept(s, false) == Kept(s[1..], true) == Kept(s[2..], false);
      }
    }
  }

  /** Text before the first '%' is passed through unchanged. */
  lemma {:induction false} StrippedPrefix(pre: string, t: string)
    requires '%' !in pre
    ensures Stripped(pre + t) ==
      (match Stripped(t) case None => None case Some(u) => Some(pre + u))
    decreases |pre|
  {
    if pre != [] {
      assert (pre + t)[1..] == pre[1..] + t;
      assert (pre + t)[0] == pre[0] && pre[0] in pre;
      StrippedPrefix(pre[1..], t);
      assert Stripped(pre + t) ==
        (match Stripped(pre[1..] + t) case None => None case Some(v) => Some([pre[0]] + v));
      if Stripped(t).Some? {
        var u := Stripped(t).value;
        assert [pre[0]] + (pre[1..] + u) == pre + u;
      }
    } else {
      assert pre + t == t;
      if Stripped(t).Some? {
        assert pre + Stripped(t).value == Stripped(t).value;
      }
    }
  }

  /** A pass of the loop never changes what the loop finally returns. */
  lemma StepPreserves(s: string)
    requires '%' in s
    ensures Stripped(Step(s)) == Stripped(s)
  {
    var p := FirstPercent(s);
    var pre := s[..p];
    assert '%' !in pre;
    assert s == pre + s[p..];
    StrippedPrefix(pre, s[p..]);
    var c := CharAfter(s, p);
    if c == '%' {
      assert s[p..][1..] == s[p + 1..];
      StrippedPrefix(pre, s[p + 1..]);
    } else if IsFieldCode(c) {
      assert s[p..][2..] == s[p + 2..];
      StrippedPrefix(pre, s[p + 2..]);
    }
  }

  /** A recognised field code is erased with its '%'; the text around it is kept in order. */
  lemma FieldCodeErased(pre: string, c: char, post: string)
    requires '%' !in pre && IsFieldCode(c)
    ensures Stripped(pre + ['%', c] + post) ==
      (match Stripped(post) case None => None case Some(u) => Some(pre + u))
  {
    assert pre + ['%', c] + post == pre + (['%', c] + post);
    StrippedPrefix(pre, ['%', c] + post);
    assert (['%', c] + post)[2..] == post;
  }

  /** "%%" counts as one '%', which is then examined with the character after it. */
  lemma DoublePercentCollapsed(pre: string, post: string)
    requires '%' !in pre
    ensures Stripped(pre + "%%" + post) == Stripped(pre + "%" + post)
  {
    assert pre + "%%" + post == pre + ("%%" + post);
    assert pre + "%" + post == pre + ("%" + post);
    StrippedPrefix(pre, "%%" + post);
    StrippedPrefix(pre, "%" + post);
    assert ("%%" + post)[1..] == "%" + post;
  }

  /** A text without '%' is returned unchanged. */
  lemma StrippedNoPercent(s: string)
    requires '%' !in s
    ensures Stripped(s) == Some(s)
  {
    StrippedPrefix(s, []);
    assert s + [] == s;
  }

  /**
   * An input with a stuck '%' never leaves the loop: after any number of
   * passes the text still holds a '%', so strstr keeps finding one.
   */
  lemma {:induction false} NeverTerminates(s: string, n: nat)
    requires HasStuckPercent(s)
    ensures '%' in Run(s, n) && Stripped(Run(s, n)).None?
  {
    if n == 0 {
      StrippedDefinedIff(s);
      if '%' !in s { StrippedNoPercent(s); }
    } else {
      NeverTerminates(s, n - 1);
      var t := Run(s, n - 1);
      StepPreserves(t);
      if '%' !in Step(t) { StrippedNoPercent(Step(t)); }
    }
  }

  /** Where the loop ends, the first '%' is followed by '%' or a field code. */
  lemma FirstPercentNotStuck(s: string)
    requires '%' in s && !HasStuckPercent(s)
    ensures CharAfter(s, FirstPercent(s)) == '%' || IsFieldCode(CharAfter(s, FirstPercent(s)))
  {
    var p := FirstPercent(s);
    assert !(s[p] == '%' && (p + 1 == |s| || (s[p + 1] != '%' && !IsFieldCode(s[p + 1]))));
  }

  /** remove_parameters, for the inputs on which its loop ends. */
  method RemoveParameters(exec: string) returns (r: string)
    requires !HasStuckPercent(exec)
    ensures Stripped(exec) == Some(r)
    ensures r == Kept(exec, false)
    ensures '%' !in r
  {
    StrippedDefinedIff(exec);
    var str := exec;
    while '%' in str
      invariant Stripped(str) == Stripped(exec)
      decreases |str|
    {
      var p := FirstPercent(str);
      StepPreserves(str);
      StrippedDefinedIff(str);
      FirstPercentNotStuck(str);
      var c := CharAfter(str, p);
      if c == '%' {
        str := str[..p] + str[p + 1..];
      } else if IsFieldCode(c) {
        str := str[..p] + str[p + 2..];
      } else {
        assert false;
      }
    }
    StrippedNoPercent(str);
    StrippedIsKept(exec);
    r := str;
  }
}
