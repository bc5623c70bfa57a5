/** The loop a caller writes around next, and when it visits every selected address. */
module CidrEnumeration {
  import opened CidrAddress
  import opened CidrBlocks
  import opened SkippingWalk
  import opened CidrList
  import CidrScan

  /** Every selected IPv4 address, in ascending order. */
  ghost function AllSelected(inc: seq<Block>, exc: seq<Block>): seq<nat> {
    Exhaustive(CidrScan.SelectedIn(inc, exc), V4_COUNT - 1, 1)
  }

  /** What a full run of next returns. */
  ghost function FullRun(inc: seq<Block>, exc: seq<Block>): seq<nat> {
    if CidrScan.FirstAddress(inc) == 0 then []  // the empty list
    else Run(CidrScan.SelectedIn(inc, exc), CidrScan.StepIn(inc, exc), CidrScan.LastAddress(inc),
             CidrScan.FirstAddress(inc))
  }

  /** No jump taken during a full run lands on a selected address. */
  ghost predicate FullRunLossless(inc: seq<Block>, exc: seq<Block>) {
    inc == [] ||
    var last := CidrScan.LastAddress(inc);
    RunLossless(CidrScan.SelectedIn(inc, exc), CidrScan.StepIn(inc, exc), CidrScan.LosesIn(inc, exc, last), last,
                CidrScan.FirstAddress(inc))
  }

  /** The reference only needs to look between the ends of the list. */
  lemma AllSelectedLiesBetweenTheEnds(inc: seq<Block>, exc: seq<Block>)
    ensures inc == [] ==> AllSelected(inc, exc) == []
    ensures inc != [] ==> (
              AllSelected(inc, exc) ==
              Exhaustive(CidrScan.SelectedIn(inc, exc), CidrScan.LastAddress(inc), CidrScan.FirstAddress(inc)))
  {
    var sel := CidrScan.SelectedIn(inc, exc);
    var last, first := CidrScan.LastAddress(inc), CidrScan.FirstAddress(inc);
    forall s: nat | sel(s)
      ensures 0 < first <= s <= last
    {
      CidrScan.SelectedWithinEnds(inc, exc, s);
    }
    CidrScan.FirstAddressIsLowest(inc);
    ExhaustiveToAbove(sel, last, V4_COUNT - 1, 1);
    if inc == [] {
      ExhaustiveFromBelow(sel, last, 1, V4_COUNT);
    } else {
      ExhaustiveFromBelow(sel, last, 1, first);
    }
  }

  /** A full run visits exactly the selected addresses, in order, if and only if no jump it takes lands on one. */
  lemma FullRunIsExact(inc: seq<Block>, exc: seq<Block>)
    ensures FullRun(inc, exc) == AllSelected(inc, exc) <==> FullRunLossless(inc, exc)
  {
    AllSelectedLiesBetweenTheEnds(inc, exc);
    CidrScan.FirstAddressIsLowest(inc);
    if inc != [] {
      var last := CidrScan.LastAddress(inc);
      CidrScan.StepLosses(inc, exc, last);
      RunRefinesExhaustive(CidrScan.SelectedIn(inc, exc), CidrScan.StepIn(inc, exc),
                           CidrScan.LosesIn(inc, exc, last), last, CidrScan.FirstAddress(inc));
    }
  }

  /** In particular on every list without a small include at the wrong place inside an exclude. */
  lemma FullRunOfApartList(inc: seq<Block>, exc: seq<Block>)
    requires CidrScan.Apart(inc, exc)
    ensures FullRun(inc, exc) == AllSelected(inc, exc)
  {
    AllSelectedLiesBetweenTheEnds(inc, exc);
    CidrScan.FirstAddressIsLowest(inc);
    if inc != [] {
      CidrScan.ApartListsAreExact(inc, exc, CidrScan.FirstAddress(inc));
    }
  }

  /** Such are lists whose includes have at least four addresses, and lists without excludes. */
  lemma FullRunOfCleanList(inc: seq<Block>, exc: seq<Block>)
    requires (forall n :: n in inc ==> n.pflen <= 30) || exc == []
    ensures FullRun(inc, exc) == AllSelected(inc, exc)
  {
    CidrScan.NoLosses(inc, exc, 0, 0);
    FullRunOfApartList(inc, exc);
  }

  /** One call of next finds the least selected address not below start, if and only if the scan loses none. */
  lemma NextIsExact(inc: seq<Block>, exc: seq<Block>, bound: nat, start: nat)
    requires 0 < start && bound <= CidrScan.LastAddress(inc)
    ensures IsLeast(CidrScan.SelectedIn(inc, exc), bound, start, Arrival(inc, exc, bound, start)) <==>
            Lossless(CidrScan.SelectedIn(inc, exc), CidrScan.StepIn(inc, exc), CidrScan.LosesIn(inc, exc, bound),
                     bound, start)
  {
    CidrScan.StepLosses(inc, exc, bound);
    ScanIsExact(CidrScan.SelectedIn(inc, exc), CidrScan.StepIn(inc, exc), CidrScan.LosesIn(inc, exc, bound),
                bound, start);
  }

  /** Every call is exact, from whatever address, if and only if no excluded address jumps onto a selected one. */
  lemma EveryNextIsExact(inc: seq<Block>, exc: seq<Block>, bound: nat)
    requires bound <= CidrScan.LastAddress(inc)
    ensures (forall start: nat :: 0 < start ==>
               IsLeast(CidrScan.SelectedIn(inc, exc), bound, start, Arrival(inc, exc, bound, start)))
            <==> forall x: nat :: 0 < x <= bound ==> !CidrScan.Loses(inc, exc, bound, x)
  {
    var sel, step, loses := CidrScan.SelectedIn(inc, exc), CidrScan.StepIn(inc, exc), CidrScan.LosesIn(inc, exc, bound);
    if forall x: nat :: 0 < x <= bound ==> !CidrScan.Loses(inc, exc, bound, x) {
      forall start: nat | 0 < start
        ensures IsLeast(sel, bound, start, Arrival(inc, exc, bound, start))
      {
        NeverLosing(sel, step, loses, bound, start);
        NextIsExact(inc, exc, bound, start);
      }
    }
    forall x: nat | 0 < x <= bound && IsLeast(sel, bound, x, Arrival(inc, exc, bound, x))
      ensures !CidrScan.Loses(inc, exc, bound, x)
    {
      NextIsExact(inc, exc, bound, x);
      assert Lossless(sel, step, loses, bound, x);
    }
  }

  /** On the clean lists every call finds the least selected address above, or reports rightly that there is none. */
  lemma NextOfCleanList(inc: seq<Block>, exc: seq<Block>, start: nat)
    requires (forall n :: n in inc ==> n.pflen <= 30) || exc == []
    requires 0 < start
    ensures NextIsLeast(inc, exc, start)
  {
    CidrScan.NoLosses(inc, exc, 0, 0);
    NextOfApartList(inc, exc, start);
  }

  /** The scan from start arrives at the least selected address from there on, or at 0 when there is none. */
  ghost predicate NextIsLeast(inc: seq<Block>, exc: seq<Block>, start: nat) {
    var r := Arrival(inc, exc, CidrScan.LastAddress(inc), start);
    if r == 0 then forall s: nat :: s >= start ==> !CidrScan.Selected(inc, exc, s)
    else start <= r && CidrScan.Selected(inc, exc, r) &&
         forall s: nat :: start <= s < r ==> !CidrScan.Selected(inc, exc, s)
  }

  lemma NextOfApartList(inc: seq<Block>, exc: seq<Block>, start: nat)
    requires CidrScan.Apart(inc, exc) && 0 < start
    ensures NextIsLeast(inc, exc, start)
  {
    var last := CidrScan.LastAddress(inc);
    var sel := CidrScan.SelectedIn(inc, exc);
    forall x: nat
      ensures !CidrScan.Loses(inc, exc, last, x)
    {
      CidrScan.ApartNeverLoses(inc, exc, last, x);
    }
    EveryNextIsExact(inc, exc, last);
    assert IsLeast(sel, last, start, Arrival(inc, exc, last, start));
    forall s: nat | CidrScan.Selected(inc, exc, s)
      ensures sel(s) && s <= last
    {
      CidrScan.SelectedWithinEnds(inc, exc, s);
    }
  }

  /** Losing or not, what next returns is selected, above the address it was given and not above the bound. */
  lemma NextIsSound(inc: seq<Block>, exc: seq<Block>, bound: nat, start: nat)
    requires 0 < start
    ensures var r := Arrival(inc, exc, bound, start);
            r == 0 || (start <= r <= bound && CidrScan.Selected(inc, exc, r))
  {
    ScanStopsAtSelected(CidrScan.SelectedIn(inc, exc), CidrScan.StepIn(inc, exc), bound, start);
  }

  /** Where an iteration over inc and exc stands: at x, or at the end when x is 0. */
  ghost predicate At(list: CIDRList, address: CIDRAddress, found: bool, inc: seq<Block>, exc: seq<Block>, x: nat)
    reads list, address
  {
    && list.Consistent() && list.networks == inc && list.excludedNetworks == exc
    && list.last == AsAddress(CidrScan.LastAddress(inc))
    && if found then 0 < x < V4_COUNT && address.cidr == V4(x, 32) else x == 0
  }

  /** The first call of an iteration. */
  method FirstNext(list: CIDRList, address: CIDRAddress, ghost inc: seq<Block>, ghost exc: seq<Block>)
    returns (found: bool)
    requires list.Consistent() && list.networks == inc && list.excludedNetworks == exc && address.cidr == Null
    modifies list`last, address
    ensures At(list, address, found, inc, exc,
               Arrival(inc, exc, CidrScan.LastAddress(inc), CidrScan.FirstAddress(inc)))
  {
    found := list.Next(address);
  }

  /** Every further call. */
  method FurtherNext(list: CIDRList, address: CIDRAddress, ghost inc: seq<Block>, ghost exc: seq<Block>, ghost x: nat)
    returns (found: bool)
    requires At(list, address, true, inc, exc, x)
    modifies list`last, address
    ensures At(list, address, found, inc, exc, Arrival(inc, exc, CidrScan.LastAddress(inc), x + 1))
  {
    found := list.Next(address);
  }

  /** The loop of the class comment: next from an invalid address until it reports the end. */
  method Enumerate(list: CIDRList) returns (out: seq<nat>)
    requires list.Consistent()
    modifies list`last
    ensures list.Consistent()
    ensures out == FullRun(list.networks, list.excludedNetworks)
  {
    ghost var inc, exc, last := list.networks, list.excludedNetworks, CidrScan.LastAddress(list.networks);
    ghost var total, x := FullRun(inc, exc), Arrival(inc, exc, last, CidrScan.FirstAddress(inc));
    RunBegins(inc, exc);
    out := [];
    var address := new CIDRAddress();
    var found := FirstNext(list, address, inc, exc);
    while found
      invariant At(list, address, found, inc, exc, x) && x <= last
      invariant total == out + RestFrom(inc, exc, last, x)
      decreases found, last - x
    {
      RunGoesOn(inc, exc, last, out, x);
      var current: nat := address.cidr.addr;
      out := out + [current];
      found := FurtherNext(list, address, inc, exc, x);
      x := Arrival(inc, exc, last, x + 1);
    }
  }

  /** The part of a run that begins with the returned address x. */
  ghost function Rest(inc: seq<Block>, exc: seq<Block>, last: nat, x: nat): seq<nat> {
    [x] + Run(CidrScan.SelectedIn(inc, exc), CidrScan.StepIn(inc, exc), last, x + 1)
  }

  ghost function RestFrom(inc: seq<Block>, exc: seq<Block>, last: nat, r: nat): seq<nat> {
    if r == 0 then [] else Rest(inc, exc, last, r)
  }

  lemma RunBegins(inc: seq<Block>, exc: seq<Block>)
    ensures var r := Arrival(inc, exc, CidrScan.LastAddress(inc), CidrScan.FirstAddress(inc));
            FullRun(inc, exc) == RestFrom(inc, exc, CidrScan.LastAddress(inc), r) && r <= CidrScan.LastAddress(inc)
  {
    RunUnfolds(CidrScan.SelectedIn(inc, exc), CidrScan.StepIn(inc, exc), CidrScan.LastAddress(inc),
               CidrScan.FirstAddress(inc));
  }

  lemma RunGoesOn(inc: seq<Block>, exc: seq<Block>, last: nat, out: seq<nat>, x: nat)
    ensures var r := Arrival(inc, exc, last, x + 1);
            out + Rest(inc, exc, last, x) == (out + [x]) + RestFrom(inc, exc, last, r) && r <= last
  {
  }

  /** What the first step of a run passes over is never returned. */
  lemma JumpedOver(sel: nat -> bool, step: nat -> nat, last: nat, x: nat, s: nat)
    requires Advances(step) && !sel(x) && x <= s < step(x)
    ensures s !in Run(sel, step, last, x)
  {
    var r := Scan(sel, step, last, x);
    assert r == 0 || r >= step(x);
    if r != 0 {
      RunIsSound(sel, step, last, r + 1);
    }
  }

  // ---------- lists on which addresses are lost ----------

  lemma BestOfOne(n: Block, x: nat)
    ensures CidrScan.Best([n], x) == if Contains(n, x) then n else Null
  {
    assert CidrScan.Best([n][..0], x) == Null;
  }

  lemma BestOfTwo(m: Block, n: Block, x: nat)
    ensures CidrScan.Best([m, n], x) ==
            if Contains(n, x) && (Contains(m, x) ==> n.pflen > m.pflen) then n
            else if Contains(m, x) then m else Null
  {
    assert [m, n][..1] == [m];
    BestOfOne(m, x);
  }

  const WIDE: Cidr := V4(8, 29)
  const SINGLE: Cidr := V4(11, 32)
  const HOLE: Cidr := V4(8, 30)

  lemma ExampleBlocks()
    ensures IsBlock(WIDE) && IsBlock(SINGLE) && IsBlock(HOLE)
    ensures Last(HOLE) == 11
    ensures forall x :: (Contains(WIDE, x) <==> 8 <= x <= 15) && (Contains(HOLE, x) <==> 8 <= x <= 11)
    ensures forall x :: Contains(SINGLE, x) <==> x == 11
  {
    assert Aligned(8, 2) && Aligned(8, 3);
    assert Pow2(2) == 4 && Pow2(3) == 8;
    forall x
      ensures (Contains(WIDE, x) <==> 8 <= x <= 15) && (Contains(HOLE, x) <==> 8 <= x <= 11)
      ensures Contains(SINGLE, x) <==> x == 11
    {
      ContainsIsInterval(WIDE, x);
      ContainsIsInterval(HOLE, x);
      ContainsIsInterval(SINGLE, x);
    }
  }

  lemma ExampleScan(wide: Block, single: Block, hole: Block)
    requires wide == WIDE && single == SINGLE && hole == HOLE
    ensures !CidrScan.Selected([wide, single], [hole], 8) && CidrScan.Selected([wide, single], [hole], 11)
    ensures CidrScan.FirstAddress([wide, single]) == 8
    ensures CidrScan.Step([wide, single], [hole], 8) == 12
  {
    ExampleBlocks();
    BestOfTwo(wide, single, 8);
    BestOfTwo(wide, single, 11);
    BestOfOne(hole, 8);
    BestOfOne(hole, 11);
    assert [wide, single][..1] == [wide] && [wide][..0] == [];
    assert CidrScan.FirstAddress([wide]) == 8;
    assert CidrScan.SkipTarget([wide], 8, 11) == 11;
    assert CidrScan.SkipTarget([wide, single], 8, 11) == 11;
  }

  /**
   * Include 0.0.0.8/29 and the single address 0.0.0.11, exclude 0.0.0.8/30: 0.0.0.11 is selected, but next
   * jumps from 0.0.0.8 to the end of the exclude, which is 0.0.0.11, and goes on behind it.
   */
  lemma AddressLost()
    ensures IsBlock(WIDE) && IsBlock(SINGLE) && IsBlock(HOLE)
    ensures var inc, exc: seq<Block> := [WIDE, SINGLE], [HOLE];
            CidrScan.Selected(inc, exc, 11) && 11 in AllSelected(inc, exc) && 11 !in FullRun(inc, exc)
  {
    ExampleBlocks();
    var inc, exc: seq<Block> := [WIDE, SINGLE], [HOLE];
    ExampleScan(WIDE, SINGLE, HOLE);
    var sel, step, last := CidrScan.SelectedIn(inc, exc), CidrScan.StepIn(inc, exc), CidrScan.LastAddress(inc);
    assert sel(11) && !sel(8) && step(8) == 12;
    ExhaustiveIsComplete(sel, V4_COUNT - 1, 1);
    JumpedOver(sel, step, last, 8, 11);
  }

  /**
   * The order of the list decides where a jump out of 0.0.0.8/30 lands: with 0.0.0.9 added before 0.0.0.10
   * it stays at 0.0.0.8, the other way round it lands on 0.0.0.9 itself.
   */
  lemma OrderMatters()
    ensures IsBlock(V4(9, 32)) && IsBlock(V4(10, 32))
    ensures CidrScan.SkipTarget([V4(9, 32), V4(10, 32)], 8, 11) == 8
    ensures CidrScan.SkipTarget([V4(10, 32), V4(9, 32)], 8, 11) == 9
  {
    var nine: Block, ten: Block := V4(9, 32), V4(10, 32);
    assert [nine, ten][..1] == [nine] && [ten, nine][..1] == [ten] && [nine][..0] == [] && [ten][..0] == [];
    assert CidrScan.SkipTarget([nine], 8, 11) == 8;
    assert CidrScan.SkipTarget([ten], 8, 11) == 9;
  }
}
