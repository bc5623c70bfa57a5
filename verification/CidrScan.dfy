/** Which addresses a list of includes and excludes selects, and what the jumping scan of CIDRList::next visits. */
module CidrScan {
  import opened CidrAddress
  import opened CidrBlocks
  import opened SkippingWalk

  // ---------- selection: longest match (section 5.1 of RFC 4632) ----------

  /** The longest-prefix block that contains x, Null when there is none. */
  function Best(nets: seq<Block>, x: nat): (r: Cidr)
    ensures r == Null || (IsBlock(r) && Contains(r, x))
  {
    if nets == [] then Null
    else
      var b, n := Best(nets[..|nets| - 1], x), nets[|nets| - 1];
      if Contains(n, x) && n.pflen > PrefixOf(b) then n else b
  }

  lemma {:induction false} BestIsLongest(nets: seq<Block>, x: nat)
    ensures Best(nets, x) == Null || Best(nets, x) in nets
    ensures forall n :: n in nets && Contains(n, x) ==> Best(nets, x) != Null && n.pflen <= Best(nets, x).pflen
  {
    if nets != [] {
      BestIsLongest(nets[..|nets| - 1], x);
      assert nets[|nets| - 1] in nets;
    }
  }

  function PrefixOf(c: Cidr): int {
    if c.V4? then c.pflen else -1
  }

  /** In an include, covered by an exclude of a longer prefix: on equal prefixes the include wins. */
  predicate Excluded(inc: seq<Block>, exc: seq<Block>, x: nat) {
    Best(inc, x) != Null && PrefixOf(Best(exc, x)) > PrefixOf(Best(inc, x))
  }

  /** The network or broadcast address of its best include, where those exist. */
  predicate NetOrBroadcast(inc: seq<Block>, x: nat) {
    var n := Best(inc, x);
    n != Null && n.pflen < 31 && (x == First(n) || x == Last(n))
  }

  predicate Selected(inc: seq<Block>, exc: seq<Block>, x: nat) {
    Best(inc, x) != Null && !Excluded(inc, exc, x) && !NetOrBroadcast(inc, x)
  }

  /** Selection without any search: some include is at least as long as every block that contains x. */
  lemma SelectedMeaning(inc: seq<Block>, exc: seq<Block>, x: nat)
    ensures Selected(inc, exc, x) <==>
            exists n: Block :: n in inc && Contains(n, x)
              && (forall o :: o in inc + exc && Contains(o, x) ==> o.pflen <= n.pflen)
              && (n.pflen < 31 ==> First(n) < x < Last(n))
  {
    var b, e := Best(inc, x), Best(exc, x);
    BestIsLongest(inc, x);
    BestIsLongest(exc, x);
    if Selected(inc, exc, x) {
      ContainsIsInterval(b, x);
      assert forall o :: o in inc + exc && Contains(o, x) ==> o.pflen <= b.pflen;
    }
    if n: Block :| (
      n in inc && Contains(n, x)
      && (forall o :: o in inc + exc && Contains(o, x) ==> o.pflen <= n.pflen)
      && (n.pflen < 31 ==> First(n) < x < Last(n))
    ) {
      assert b in inc + exc;
      assert e != Null ==> e in inc + exc;
      Nested(b, n, x);
    }
  }

  // ---------- the ends of the walk ----------

  /** Lowest network address of the list, 0 for an empty list. */
  function FirstAddress(nets: seq<Block>): nat {
    if nets == [] then 0
    else
      var r, n := FirstAddress(nets[..|nets| - 1]), nets[|nets| - 1];
      if |nets| == 1 || First(n) < r then First(n) else r
  }

  /** Highest host address of the list, 0 for an empty list. */
  function LastAddress(nets: seq<Block>): (r: nat)
    ensures r < V4_COUNT
  {
    if nets == [] then 0
    else
      var r, n := LastAddress(nets[..|nets| - 1]), nets[|nets| - 1];
      if |nets| == 1 || HostMax(n).addr > r then HostMax(n).addr else r
  }

  lemma {:induction false} FirstAddressIsLowest(nets: seq<Block>)
    ensures nets == [] <==> FirstAddress(nets) == 0
    ensures forall n :: n in nets ==> FirstAddress(nets) <= First(n)
    ensures nets != [] ==> exists n :: n in nets && First(n) == FirstAddress(nets)
  {
    if nets != [] {
      FirstAddressIsLowest(nets[..|nets| - 1]);
      assert nets[|nets| - 1] in nets;
    }
  }

  lemma {:induction false} LastAddressIsHighest(nets: seq<Block>)
    ensures nets == [] <==> LastAddress(nets) == 0
    ensures forall n :: n in nets ==> HostMax(n).addr <= LastAddress(nets)
    ensures nets != [] ==> exists n :: n in nets && HostMax(n).addr == LastAddress(nets)
  {
    if nets != [] {
      LastAddressIsHighest(nets[..|nets| - 1]);
      assert nets[|nets| - 1] in nets;
    }
  }

  /** Every selected address lies between the ends. */
  lemma SelectedWithinEnds(inc: seq<Block>, exc: seq<Block>, x: nat)
    requires Selected(inc, exc, x)
    ensures 0 < FirstAddress(inc) <= x <= LastAddress(inc)
  {
    var n: Block := Best(inc, x);
    BestIsLongest(inc, x);
    FirstAddressIsLowest(inc);
    LastAddressIsHighest(inc);
    ContainsIsInterval(n, x);
  }

  lemma EndsInOrder(inc: seq<Block>)
    requires inc != []
    ensures 0 < FirstAddress(inc) <= LastAddress(inc)
  {
    FirstAddressIsLowest(inc);
    LastAddressIsHighest(inc);
    assert inc[0] in inc;
    assert First(inc[0]) <= HostMax(inc[0]).addr;
  }

  // ---------- the two jumps ----------

  /** Lowest network address above x, 0 when there is none. */
  function NextStart(nets: seq<Block>, x: nat): (r: nat)
    ensures r == 0 || x < r < V4_COUNT
  {
    if nets == [] then 0
    else
      var r, n := NextStart(nets[..|nets| - 1], x), nets[|nets| - 1];
      if First(n) > x && (r == 0 || First(n) < r) then First(n) else r
  }

  lemma {:induction false} NextStartIsLowestAbove(nets: seq<Block>, x: nat)
    ensures NextStart(nets, x) == 0 <==> forall n :: n in nets ==> First(n) <= x
    ensures NextStart(nets, x) != 0 ==> exists n :: n in nets && First(n) == NextStart(nets, x)
    ensures forall n :: n in nets && First(n) > x ==> NextStart(nets, x) <= First(n)
  {
    if nets != [] {
      NextStartIsLowestAbove(nets[..|nets| - 1], x);
      assert nets[|nets| - 1] in nets;
    }
  }

  /** An address outside every include, but not above the last one, has an include ahead. */
  lemma PoolAhead(nets: seq<Block>, x: nat)
    requires 0 < x <= LastAddress(nets) && Best(nets, x) == Null
    ensures NextStart(nets, x) != 0
  {
    BestIsLongest(nets, x);
    LastAddressIsHighest(nets);
    NextStartIsLowestAbove(nets, x);
    var n :| n in nets && HostMax(n).addr == LastAddress(nets);
    ContainsIsInterval(n, x);
  }

  /** Between x and the next include start there is nothing to select. */
  lemma GapIsEmpty(inc: seq<Block>, exc: seq<Block>, x: nat, s: nat)
    requires x > 0 && Best(inc, x) == Null && x <= s < NextStart(inc, x)
    ensures !Selected(inc, exc, s)
  {
    var n := Best(inc, s);
    BestIsLongest(inc, s);
    BestIsLongest(inc, x);
    NextStartIsLowestAbove(inc, x);
    if n != Null {
      ContainsIsInterval(n, s);
      ContainsIsInterval(n, x);
    }
  }

  /**
   * Where the jump out of an exclude ends: its last address, or one before an include that starts
   * inside. The result depends on the order of the list: a start equal to the target so far is passed over.
   */
  function SkipTarget(nets: seq<Block>, x: nat, end: nat): (r: nat)
    requires x <= end
    ensures x <= r <= end
  {
    if nets == [] then end
    else
      var r, n := SkipTarget(nets[..|nets| - 1], x, end), nets[|nets| - 1];
      if x < First(n) < end && First(n) < r then First(n) - 1 else r
  }

  /** No include starts strictly inside a jump. */
  lemma {:induction false} NoStartInsideJump(nets: seq<Block>, x: nat, end: nat)
    requires x <= end
    ensures forall n :: n in nets && First(n) > x ==> First(n) >= SkipTarget(nets, x, end)
  {
    if nets != [] {
      NoStartInsideJump(nets[..|nets| - 1], x, end);
    }
  }

  /** The jump from an excluded address x. */
  function Jump(inc: seq<Block>, exc: seq<Block>, x: nat): (r: nat)
    requires Excluded(inc, exc, x)
    ensures x <= r < V4_COUNT
  {
    var e: Block := Best(exc, x);
    ContainsIsInterval(e, x);
    LastFits(e);
    SkipTarget(inc, x, Last(e))
  }

  /** The only selected address a jump can pass over is the one it lands on. */
  lemma JumpPassesOnlyItsTarget(inc: seq<Block>, exc: seq<Block>, x: nat, s: nat)
    requires Excluded(inc, exc, x) && x <= s <= Jump(inc, exc, x)
    requires Selected(inc, exc, s)
    ensures s == Jump(inc, exc, x) > x
    ensures First(Best(inc, s)) == s && Best(inc, s).pflen >= 31
  {
    var e: Block := Best(exc, x);
    var n: Block := Best(inc, s);
    BestIsLongest(inc, x);
    BestIsLongest(inc, s);
    BestIsLongest(exc, x);
    BestIsLongest(exc, s);
    NoStartInsideJump(inc, x, Last(e));
    ContainsIsInterval(e, x);
    ContainsIsInterval(e, s);
    assert e in exc && Contains(e, s);
    assert e.pflen <= PrefixOf(Best(exc, s)) <= n.pflen;
    assert !Contains(n, x);
    Nested(e, n, s);
    ContainsIsInterval(n, x);
    ContainsIsInterval(n, s);
  }

  /**
   * When a jump loses its target: exactly when an include of one or two addresses starts there and no
   * single-address exclude covers a two-address one.
   */
  lemma JumpLosesItsTarget(inc: seq<Block>, exc: seq<Block>, x: nat)
    requires Excluded(inc, exc, x)
    ensures var t := Jump(inc, exc, x);
            Selected(inc, exc, t) <==>
            exists n :: n in inc && First(n) == t
              && (n.pflen == 32 || (n.pflen == 31 && forall e :: e in exc && Contains(e, t) ==> e.pflen <= 31))
  {
    var t := Jump(inc, exc, x);
    BestIsLongest(inc, t);
    BestIsLongest(exc, t);
    if Selected(inc, exc, t) {
      JumpPassesOnlyItsTarget(inc, exc, x, t);
      assert forall e :: e in exc && Contains(e, t) ==> e.pflen <= Best(inc, t).pflen;
    }
    if n: Block :| (
      n in inc && First(n) == t
      && (n.pflen == 32 || (n.pflen == 31 && forall e :: e in exc && Contains(e, t) ==> e.pflen <= 31))
    ) {
      ContainsIsInterval(n, t);
    }
  }

  // ---------- the scan ----------

  /** The next address tested after x, when x is not selected: the three "filtered" branches of next. */
  function Step(inc: seq<Block>, exc: seq<Block>, x: nat): (y: nat)
    ensures x < y
    ensures x < V4_COUNT ==> y <= V4_COUNT
  {
    if 0 < x <= LastAddress(inc) && Best(inc, x) == Null then
      PoolAhead(inc, x);
      NextStart(inc, x)
    else if Excluded(inc, exc, x) then Jump(inc, exc, x) + 1
    else x + 1
  }

  /** The guard of the branch that can lose an address: x is excluded and the jump lands on a selected one. */
  predicate Loses(inc: seq<Block>, exc: seq<Block>, last: nat, x: nat) {
    Excluded(inc, exc, x) && Jump(inc, exc, x) <= last && Selected(inc, exc, Jump(inc, exc, x))
  }

  lemma StepPasses(inc: seq<Block>, exc: seq<Block>, last: nat, x: nat)
    requires 0 < x <= last <= LastAddress(inc) && !Selected(inc, exc, x)
    ensures Loses(inc, exc, last, x) <==>
            exists s: nat :: x <= s < Step(inc, exc, x) && s <= last && Selected(inc, exc, s)
  {
    if Excluded(inc, exc, x) {
      forall s: nat | x <= s <= Jump(inc, exc, x) && Selected(inc, exc, s)
        ensures s == Jump(inc, exc, x)
      {
        JumpPassesOnlyItsTarget(inc, exc, x, s);
      }
    } else if Best(inc, x) == Null {
      PoolAhead(inc, x);
      forall s: nat | x <= s < NextStart(inc, x)
        ensures !Selected(inc, exc, s)
      {
        GapIsEmpty(inc, exc, x, s);
      }
    }
  }

  // ---------- the walk of one list ----------

  function SelectedIn(inc: seq<Block>, exc: seq<Block>): (f: nat -> bool)
    ensures forall x: nat :: f(x) == Selected(inc, exc, x)
  {
    (x: nat) => Selected(inc, exc, x)
  }

  ghost function StepIn(inc: seq<Block>, exc: seq<Block>): (f: nat -> nat)
    ensures Advances(f)
    ensures forall x: nat :: f(x) == Step(inc, exc, x)
  {
    (x: nat) => Step(inc, exc, x)
  }

  ghost function LosesIn(inc: seq<Block>, exc: seq<Block>, last: nat): (f: nat -> bool)
    ensures forall x: nat :: f(x) == Loses(inc, exc, last, x)
  {
    (x: nat) => Loses(inc, exc, last, x)
  }

  lemma StepLosses(inc: seq<Block>, exc: seq<Block>, last: nat)
    requires last <= LastAddress(inc)
    ensures MarksLosses(SelectedIn(inc, exc), StepIn(inc, exc), LosesIn(inc, exc, last), last)
  {
    var sel, step, loses := SelectedIn(inc, exc), StepIn(inc, exc), LosesIn(inc, exc, last);
    forall x: nat | 0 < x <= last && !sel(x)
      ensures loses(x) <==> exists s: nat :: x <= s < step(x) && s <= last && sel(s)
    {
      StepPasses(inc, exc, last, x);
    }
  }

  /**
   * A condition on the list alone: no include of one or two addresses that starts inside an exclude, behind its
   * first address, starts at the exclude's last address or one before another include.
   */
  ghost predicate Apart(inc: seq<Block>, exc: seq<Block>) {
    forall m, e :: m in inc && e in exc && m.pflen >= 31 && Contains(e, First(m)) && First(e) < First(m) ==>
      First(m) != Last(e) && forall n :: n in inc ==> First(n) != First(m) + 1
  }

  /** A jump ends where the exclude does, or right before an include that starts inside. */
  lemma {:induction false} SkipTargetIsEndOrBeforeStart(nets: seq<Block>, x: nat, end: nat)
    requires x <= end
    ensures var t := SkipTarget(nets, x, end); t == end || exists n :: n in nets && First(n) == t + 1
  {
    if nets != [] {
      SkipTargetIsEndOrBeforeStart(nets[..|nets| - 1], x, end);
      assert nets[|nets| - 1] in nets;
    }
  }

  lemma ApartNeverLoses(inc: seq<Block>, exc: seq<Block>, last: nat, x: nat)
    ensures Apart(inc, exc) ==> !Loses(inc, exc, last, x)
  {
    if Loses(inc, exc, last, x) {
      var e: Block, t := Best(exc, x), Jump(inc, exc, x);
      JumpPassesOnlyItsTarget(inc, exc, x, t);
      SkipTargetIsEndOrBeforeStart(inc, x, Last(e));
      BestIsLongest(exc, x);
      BestIsLongest(inc, t);
      ContainsIsInterval(e, x);
      ContainsIsInterval(e, t);
      var m: Block := Best(inc, t);
      assert m in inc && e in exc && m.pflen >= 31 && First(m) == t && First(e) < t && Contains(e, First(m));
    }
  }

  /** Two kinds of list that never lose an address: no include shorter than four addresses, or no exclude at all. */
  lemma NoLosses(inc: seq<Block>, exc: seq<Block>, last: nat, x: nat)
    requires (forall n :: n in inc ==> n.pflen <= 30) || exc == []
    ensures Apart(inc, exc)
    ensures !Loses(inc, exc, last, x)
  {
    ApartNeverLoses(inc, exc, last, x);
  }

  /** On lists that are apart the whole run is the ascending exhaustive one. */
  lemma ApartListsAreExact(inc: seq<Block>, exc: seq<Block>, x: nat)
    requires 0 < x && Apart(inc, exc)
    ensures var last := LastAddress(inc);
            Run(SelectedIn(inc, exc), StepIn(inc, exc), last, x) == Exhaustive(SelectedIn(inc, exc), last, x)
  {
    var last := LastAddress(inc);
    var sel, step, loses := SelectedIn(inc, exc), StepIn(inc, exc), LosesIn(inc, exc, last);
    forall y: nat
      ensures !loses(y)
    {
      ApartNeverLoses(inc, exc, last, y);
    }
    StepLosses(inc, exc, last);
    NeverLosing(sel, step, loses, last, x);
    RunRefinesExhaustive(sel, step, loses, last, x);
  }

  lemma CleanListsAreExact(inc: seq<Block>, exc: seq<Block>, x: nat)
    requires 0 < x && ((forall n :: n in inc ==> n.pflen <= 30) || exc == [])
    ensures var last := LastAddress(inc);
            Run(SelectedIn(inc, exc), StepIn(inc, exc), last, x) == Exhaustive(SelectedIn(inc, exc), last, x)
  {
    ApartListsAreExact(inc, exc, x);
  }
}
