/**
 * A walk over ascending numbers that stops at selected ones and jumps from the others by a step function,
 * against the walk that tests every number. "loses" marks the numbers whose step passes over a selected one.
 */
module SkippingWalk {

  ghost predicate Advances(step: nat -> nat) {
    forall x: nat :: x < step(x)
  }

  /** loses is exact for steps taken inside 1..last. */
  ghost predicate MarksLosses(sel: nat -> bool, step: nat -> nat, loses: nat -> bool, last: nat) {
    forall x: nat :: 0 < x <= last && !sel(x) ==>
      (loses(x) <==> exists s: nat :: x <= s < step(x) && s <= last && sel(s))
  }

  /** Where the walk stops when it tests x first; 0 when it runs past last. */
  ghost function Scan(sel: nat -> bool, step: nat -> nat, last: nat, x: nat): (r: nat)
    requires Advances(step)
    ensures r == 0 || x <= r <= last
    decreases last + 1 - x
  {
    if x > last then 0 else if sel(x) then x else Scan(sel, step, last, step(x))
  }

  lemma {:induction false} ScanStopsAtSelected(sel: nat -> bool, step: nat -> nat, last: nat, x: nat)
    requires Advances(step)
    ensures var r := Scan(sel, step, last, x); r == 0 || sel(r)
    decreases last + 1 - x
  {
    if x <= last && !sel(x) {
      ScanStopsAtSelected(sel, step, last, step(x));
    }
  }

  /** The walk from x to where it stops meets no number that loses one. */
  ghost predicate Lossless(sel: nat -> bool, step: nat -> nat, loses: nat -> bool, last: nat, x: nat)
    requires Advances(step)
    decreases last + 1 - x
  {
    x > last || sel(x) || (!loses(x) && Lossless(sel, step, loses, last, step(x)))
  }

  ghost predicate IsLeast(sel: nat -> bool, last: nat, x: nat, r: nat) {
    && (r == 0 || (x <= r <= last && sel(r)))
    && (forall s: nat :: x <= s <= last && sel(s) ==> 0 < r <= s)
  }

  lemma {:induction false} ScanIsExact(sel: nat -> bool, step: nat -> nat, loses: nat -> bool, last: nat, x: nat)
    requires 0 < x && Advances(step) && MarksLosses(sel, step, loses, last)
    ensures IsLeast(sel, last, x, Scan(sel, step, last, x)) <==> Lossless(sel, step, loses, last, x)
    decreases last + 1 - x
  {
    if x <= last && !sel(x) {
      ScanIsExact(sel, step, loses, last, step(x));
      assert loses(x) <==> exists s: nat :: x <= s < step(x) && s <= last && sel(s);
    }
  }

  /** Every stop of the walk, each one tested from its predecessor plus one. */
  ghost function Run(sel: nat -> bool, step: nat -> nat, last: nat, x: nat): (out: seq<nat>)
    requires Advances(step)
    decreases last + 1 - x
  {
    var r := Scan(sel, step, last, x);
    if r == 0 then [] else [r] + Run(sel, step, last, r + 1)
  }

  lemma RunUnfolds(sel: nat -> bool, step: nat -> nat, last: nat, x: nat)
    requires Advances(step)
    ensures var r := Scan(sel, step, last, x);
            Run(sel, step, last, x) == if r == 0 then [] else [r] + Run(sel, step, last, r + 1)
  {
  }

  /** Strictly increasing, selected, and between lo and hi. */
  ghost predicate SelectedAscending(sel: nat -> bool, lo: nat, hi: nat, out: seq<nat>) {
    && (forall i :: 0 <= i < |out| ==> lo <= out[i] <= hi && sel(out[i]))
    && (forall i, j :: 0 <= i < j < |out| ==> out[i] < out[j])
  }

  lemma PrependSelected(sel: nat -> bool, lo: nat, hi: nat, r: nat, tail: seq<nat>)
    requires lo <= r <= hi && sel(r) && SelectedAscending(sel, r + 1, hi, tail)
    ensures SelectedAscending(sel, lo, hi, [r] + tail)
  {
    var out := [r] + tail;
    forall i | 0 <= i < |out|
      ensures lo <= out[i] <= hi && sel(out[i]) && (i > 0 ==> out[i] == tail[i - 1] && r < out[i])
    {
    }
  }

  /** Losing or not, a run is strictly increasing and stops only at selected numbers. */
  lemma {:induction false} RunIsSound(sel: nat -> bool, step: nat -> nat, last: nat, x: nat)
    requires Advances(step)
    ensures SelectedAscending(sel, x, last, Run(sel, step, last, x))
    decreases last + 1 - x
  {
    var r := Scan(sel, step, last, x);
    ScanStopsAtSelected(sel, step, last, x);
    if r != 0 {
      RunIsSound(sel, step, last, r + 1);
      PrependSelected(sel, x, last, r, Run(sel, step, last, r + 1));
    }
  }

  ghost predicate RunLossless(sel: nat -> bool, step: nat -> nat, loses: nat -> bool, last: nat, x: nat)
    requires Advances(step)
    decreases last + 1 - x
  {
    var r := Scan(sel, step, last, x);
    Lossless(sel, step, loses, last, x) && (r == 0 || RunLossless(sel, step, loses, last, r + 1))
  }

  /** The reference: test every number from x to last in ascending order. */
  ghost function Exhaustive(sel: nat -> bool, last: nat, x: nat): (out: seq<nat>)
    decreases last + 1 - x
  {
    if x > last then []
    else if sel(x) then [x] + Exhaustive(sel, last, x + 1)
    else Exhaustive(sel, last, x + 1)
  }

  /** The reference is the whole selection in ascending order. */
  lemma {:induction false} ExhaustiveIsComplete(sel: nat -> bool, last: nat, x: nat)
    ensures SelectedAscending(sel, x, last, Exhaustive(sel, last, x))
    ensures forall s: nat :: x <= s <= last && sel(s) ==> s in Exhaustive(sel, last, x)
    decreases last + 1 - x
  {
    if x <= last {
      ExhaustiveIsComplete(sel, last, x + 1);
      if sel(x) {
        PrependSelected(sel, x, last, x, Exhaustive(sel, last, x + 1));
      }
    }
  }

  lemma {:induction false} ExhaustiveHead(sel: nat -> bool, last: nat, x: nat, r: nat)
    requires 0 < x && IsLeast(sel, last, x, r)
    ensures Exhaustive(sel, last, x) == if r == 0 then [] else [r] + Exhaustive(sel, last, r + 1)
    decreases last + 1 - x
  {
    if x <= last && !sel(x) {
      ExhaustiveHead(sel, last, x + 1, r);
    }
  }

  /** Starting lower than the first selected number changes nothing. */
  lemma {:induction false} ExhaustiveFromBelow(sel: nat -> bool, last: nat, x: nat, y: nat)
    requires x <= y && forall s: nat :: x <= s < y ==> !sel(s)
    ensures Exhaustive(sel, last, x) == Exhaustive(sel, last, y)
    decreases y - x
  {
    if x < y {
      ExhaustiveFromBelow(sel, last, x + 1, y);
    }
  }

  /** Nothing in a run is below its first stop, and a run without a stop is empty. */
  lemma RunStartsAtScan(sel: nat -> bool, step: nat -> nat, last: nat, x: nat)
    requires Advances(step)
    ensures forall v :: v in Run(sel, step, last, x) ==> 0 < Scan(sel, step, last, x) <= v
  {
    var r := Scan(sel, step, last, x);
    if r != 0 {
      RunIsSound(sel, step, last, r + 1);
    }
  }

  lemma NotLeastDiffers(sel: nat -> bool, step: nat -> nat, last: nat, x: nat)
    requires Advances(step) && !IsLeast(sel, last, x, Scan(sel, step, last, x))
    ensures Run(sel, step, last, x) != Exhaustive(sel, last, x)
  {
    var r := Scan(sel, step, last, x);
    ScanStopsAtSelected(sel, step, last, x);
    var s: nat :| x <= s <= last && sel(s) && !(0 < r <= s);
    ExhaustiveIsComplete(sel, last, x);
    RunStartsAtScan(sel, step, last, x);
    assert s in Exhaustive(sel, last, x) && s !in Run(sel, step, last, x);
  }

  /** Neither does stopping higher than the last one. */
  lemma {:induction false} ExhaustiveToAbove(sel: nat -> bool, last: nat, top: nat, x: nat)
    requires last <= top && forall s: nat :: last < s <= top ==> !sel(s)
    ensures Exhaustive(sel, last, x) == Exhaustive(sel, top, x)
    decreases top + 1 - x
  {
    if x <= top {
      ExhaustiveToAbove(sel, last, top, x + 1);
    }
  }

  /** The jumping run equals the exhaustive one exactly when it loses nothing on its way. */
  lemma {:induction false} RunRefinesExhaustive(
      sel: nat -> bool, step: nat -> nat, loses: nat -> bool, last: nat, x: nat)
    requires 0 < x && Advances(step) && MarksLosses(sel, step, loses, last)
    ensures Run(sel, step, last, x) == Exhaustive(sel, last, x) <==> RunLossless(sel, step, loses, last, x)
    decreases last + 1 - x
  {
    var r := Scan(sel, step, last, x);
    ScanIsExact(sel, step, loses, last, x);
    if !IsLeast(sel, last, x, r) {
      NotLeastDiffers(sel, step, last, x);
    } else {
      ExhaustiveHead(sel, last, x, r);
      if r != 0 {
        RunRefinesExhaustive(sel, step, loses, last, r + 1);
        SameTails(r, Run(sel, step, last, r + 1), Exhaustive(sel, last, r + 1));
      }
    }
  }

  lemma SameTails(r: nat, a: seq<nat>, b: seq<nat>)
    ensures [r] + a == [r] + b <==> a == b
  {
    assert ([r] + a)[1..] == a && ([r] + b)[1..] == b;
  }

  /** A walk none of whose tested numbers loses anything loses nothing. */
  lemma {:induction false} NeverLosing(sel: nat -> bool, step: nat -> nat, loses: nat -> bool, last: nat, x: nat)
    requires 0 < x && Advances(step)
    requires forall y: nat :: 0 < y <= last ==> !loses(y)
    ensures Lossless(sel, step, loses, last, x) && RunLossless(sel, step, loses, last, x)
    decreases last + 1 - x
  {
    if x <= last {
      NeverLosing(sel, step, loses, last, step(x));
      NeverLosing(sel, step, loses, last, x + 1);
      var r := Scan(sel, step, last, x);
      if r != 0 {
        NeverLosing(sel, step, loses, last, r + 1);
      }
    }
  }
}
