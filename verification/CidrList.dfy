/** CIDRList: included and excluded IPv4 blocks, and the iterator over the addresses they select. */
module CidrList {
  import opened CidrAddress
  import opened CidrBlocks
  import opened SkippingWalk
  import CidrScan

  /** The bound an iteration runs to, as a number: 0 while no iteration has started. */
  function Bound(last: Cidr): nat {
    if last.V4? then last.addr else 0
  }

  /** The first address tested by a call of next; 0 when there is none. */
  function Start(inc: seq<CidrBlocks.Block>, from: Cidr): nat {
    if !Valid(from) then CidrScan.FirstAddress(inc)
    else if from.V4? then from.addr + 1
    else 0
  }

  /** The address at which next arrives, 0 for the end of the list. */
  ghost function Arrival(inc: seq<Block>, exc: seq<Block>, bound: nat, start: nat): nat {
    if start == 0 then 0
    else Scan(CidrScan.SelectedIn(inc, exc), CidrScan.StepIn(inc, exc), bound, start)
  }

  lemma {:induction false} ArrivalTurn(inc: seq<Block>, exc: seq<Block>, bound: nat, x: nat)
    requires 0 < x
    ensures Arrival(inc, exc, bound, x) ==
            if x > bound then 0
            else if CidrScan.Selected(inc, exc, x) then x
            else Arrival(inc, exc, bound, CidrScan.Step(inc, exc, x))
  {
  }

  function AsAddress(x: nat): Cidr {
    if 0 < x < V4_COUNT then V4(x, 32) else Null
  }

  /** The loop of bestNetworkFor and of bestExcludeFor. */
  method BestMatch(nets: seq<Block>, address: Cidr) returns (net: Cidr)
    ensures net == Null <==> forall n :: n in nets ==> !Covers(n, address)
    ensures net != Null ==> net in nets && Covers(net, address)
    ensures forall n :: n in nets && Covers(n, address) ==> n.pflen <= CidrScan.PrefixOf(net)
    ensures address.V4? && address.pflen == 32 ==> net == CidrScan.Best(nets, address.addr)
  {
    var bestprefix: int := -1;
    net := Null;
    for i := 0 to |nets|
      invariant bestprefix == CidrScan.PrefixOf(net)
      invariant net == Null <==> forall n :: n in nets[..i] ==> !Covers(n, address)
      invariant net != Null ==> net in nets[..i] && Covers(net, address)
      invariant forall n :: n in nets[..i] && Covers(n, address) ==> n.pflen <= bestprefix
      invariant address.V4? && address.pflen == 32 ==> net == CidrScan.Best(nets[..i], address.addr)
    {
      assert nets[..i + 1] == nets[..i] + [nets[i]] && nets[..i + 1][..i] == nets[..i];
      if Covers(nets[i], address) {
        var prefix := nets[i].pflen;
        if prefix > bestprefix {
          bestprefix := prefix;
          net := nets[i];
        }
      }
    }
    assert nets[..|nets|] == nets;
  }

  /** What one turn of the loop of _skipToNextPool makes of the candidate. */
  lemma PoolTurn(nets: seq<Block>, i: nat, address: Cidr, selected: Cidr)
    requires i < |nets| && address.V4? && Valid(address)
    requires selected == AsAddress(CidrScan.NextStart(nets[..i], address.addr))
    ensures AsAddress(CidrScan.NextStart(nets[..i + 1], address.addr)) ==
            if Greater(nets[i], address) && (!Valid(selected) || Less(nets[i], selected)) then Host(nets[i])
            else selected
  {
    assert nets[..i + 1][..i] == nets[..i];
  }

  /** What one turn of the loop of _skipToExcludeEnd makes of the candidate. */
  lemma ExcludeTurn(nets: seq<Block>, i: nat, address: Cidr, end: Cidr, selected: Cidr)
    requires i < |nets| && address.V4? && Valid(address) && end.V4? && address.addr <= end.addr
    requires selected == V4(CidrScan.SkipTarget(nets[..i], address.addr, end.addr), 32)
    ensures Valid(selected)
    ensures V4(CidrScan.SkipTarget(nets[..i + 1], address.addr, end.addr), 32) ==
            if Greater(nets[i], address) && Less(nets[i], end) && Less(nets[i], selected) then Pred(Host(nets[i]))
            else selected
  {
    assert nets[..i + 1][..i] == nets[..i];
  }

  class CIDRList {
    var networks: seq<Block>
    var excludedNetworks: seq<Block>
    var last: Cidr

    /** The bound is never above the highest host address: blocks are only ever added. */
    ghost predicate Consistent()
      reads this
    {
      last == Null || (last.V4? && 0 < last.addr <= CidrScan.LastAddress(networks))
    }

    constructor ()
      ensures Consistent() && networks == excludedNetworks == [] && last == Null
    {
      networks, excludedNetworks, last := [], [], Null;
    }

    method Add(net: Cidr) returns (added: bool)
      requires Consistent()
      requires Valid(net) ==> IsBlock(net)
      modifies this`networks
      ensures Consistent()
      ensures added <==> Valid(net) && net !in old(networks)
      ensures networks == if added then old(networks) + [net] else old(networks)
    {
      if !Valid(net) {
        return false;
      }
      for i := 0 to |networks|
        invariant net !in networks[..i]
        invariant networks == old(networks)
      {
        if networks[i] == net {
          return false;
        }
      }
      assert (networks + [net])[..|networks|] == networks;
      networks := networks + [net];
      return true;
    }

    method Exclude(net: Cidr) returns (added: bool)
      requires Valid(net) ==> IsBlock(net)
      modifies this`excludedNetworks
      ensures added <==> Valid(net) && net !in old(excludedNetworks)
      ensures excludedNetworks == if added then old(excludedNetworks) + [net] else old(excludedNetworks)
    {
      if !Valid(net) {
        return false;
      }
      for i := 0 to |excludedNetworks|
        invariant net !in excludedNetworks[..i]
        invariant excludedNetworks == old(excludedNetworks)
      {
        if excludedNetworks[i] == net {
          return false;
        }
      }
      excludedNetworks := excludedNetworks + [net];
      return true;
    }

    method FirstAddress() returns (result: Cidr)
      ensures result == AsAddress(CidrScan.FirstAddress(networks))
    {
      if |networks| == 0 {
        return Null;
      }
      result := Host(networks[0]);
      for i := 1 to |networks|
        invariant result == V4(CidrScan.FirstAddress(networks[..i]), 32) && Valid(result)
      {
        assert networks[..i + 1][..i] == networks[..i];
        var addr := Host(networks[i]);
        if Less(addr, result) {
          result := addr;
        }
      }
      assert networks[..|networks|] == networks;
    }

    method LastAddress() returns (result: Cidr)
      ensures result == AsAddress(CidrScan.LastAddress(networks))
    {
      if |networks| == 0 {
        return Null;
      }
      result := HostMax(networks[0]);
      for i := 1 to |networks|
        invariant result == V4(CidrScan.LastAddress(networks[..i]), 32) && Valid(result)
      {
        assert networks[..i + 1][..i] == networks[..i];
        var addr := HostMax(networks[i]);
        if Greater(addr, result) {
          result := addr;
        }
      }
      assert networks[..|networks|] == networks;
    }

    /** _skipToNextPool: from outside every include to one before the next include starts. */
    method SkipToNextPool(address: CIDRAddress)
      requires address.cidr.V4? && 0 < address.cidr.addr <= CidrScan.LastAddress(networks)
      requires CidrScan.Best(networks, address.cidr.addr) == Null
      modifies address
      ensures address.cidr.V4? && address.cidr.pflen == 32
      ensures address.cidr.addr + 1 == CidrScan.NextStart(networks, old(address.cidr.addr))
      ensures address.cidr.addr >= old(address.cidr.addr)
    {
      ghost var x: nat := address.cidr.addr;
      CidrScan.PoolAhead(networks, x);
      var selected := new CIDRAddress();
      for i := 0 to |networks|
        invariant address.cidr == old(address.cidr)
        invariant selected.cidr == AsAddress(CidrScan.NextStart(networks[..i], x))
      {
        PoolTurn(networks, i, address.cidr, selected.cidr);
        if Greater(networks[i], address.cidr) && networks[i].V4? {
          if Valid(selected.cidr) {
            if Less(networks[i], selected.cidr) {
              selected.Set(Host(networks[i]));
            }
          } else {
            selected.Set(Host(networks[i]));
          }
        }
      }
      assert networks[..|networks|] == networks;
      selected.Decrement();
      address.Set(selected.cidr);
    }

    /** _skipToExcludeEnd: from an excluded address to the end of its best exclude or to one before an include. */
    method SkipToExcludeEnd(address: CIDRAddress)
      requires address.cidr.V4? && address.cidr.pflen == 32
      requires CidrScan.Excluded(networks, excludedNetworks, address.cidr.addr)
      modifies address
      ensures address.cidr.V4? && address.cidr.pflen == 32
      ensures address.cidr.addr == CidrScan.Jump(networks, excludedNetworks, old(address.cidr.addr))
      ensures address.cidr.addr >= old(address.cidr.addr)
    {
      ghost var x: nat := address.cidr.addr;
      var currentExclude := BestMatch(excludedNetworks, address.cidr);
      var excludeEnd := Broadcast(currentExclude);
      ContainsIsInterval(currentExclude, x);
      var selected := new CIDRAddress();
      selected.Set(excludeEnd);
      for i := 0 to |networks|
        invariant address.cidr == old(address.cidr)
        invariant selected.cidr == V4(CidrScan.SkipTarget(networks[..i], x, excludeEnd.addr), 32)
      {
        ExcludeTurn(networks, i, address.cidr, excludeEnd, selected.cidr);
        if Greater(networks[i], address.cidr) && Less(networks[i], excludeEnd) {
          if Valid(selected.cidr) {
            if Less(networks[i], selected.cidr) {
              selected.Set(Host(networks[i]));
              selected.Decrement();
            }
          } else {
            assert false;  // the candidate starts at the end of the exclude and is never below the address
          }
        }
      }
      assert networks[..|networks|] == networks;
      address.Set(selected.cidr);
    }

    /** _nextSimple: the first address, or the next one unless it is above the bound. */
    method NextSimple(address: CIDRAddress)
      requires Consistent()
      modifies this`last, address
      ensures Consistent()
      ensures last == if Valid(old(address.cidr)) then old(last) else AsAddress(CidrScan.LastAddress(networks))
      ensures var x := Start(networks, old(address.cidr));
              if 0 < x <= Bound(last) then address.cidr == V4(x, 32) else !Valid(address.cidr)
    {
      if !Valid(address.cidr) {
        var first := FirstAddress();
        address.Set(first);
        last := LastAddress();
        if networks != [] {
          CidrScan.EndsInOrder(networks);
        }
        return;
      }
      address.Increment();
      if Greater(address.cidr, last) {
        address.Invalidate();
      }
    }

    /** The tests of next on one address: when it is filtered out, move to one before the next address to test. */
    method SkipFiltered(address: CIDRAddress) returns (filtered: bool)
      requires address.cidr.V4? && address.cidr.pflen == 32
      requires 0 < address.cidr.addr <= CidrScan.LastAddress(networks)
      modifies address
      ensures address.cidr.V4? && address.cidr.pflen == 32
      ensures filtered <==> !CidrScan.Selected(networks, excludedNetworks, old(address.cidr.addr))
      ensures filtered ==> address.cidr.addr + 1 == CidrScan.Step(networks, excludedNetworks, old(address.cidr.addr))
      ensures !filtered ==> address.cidr == old(address.cidr)
    {
      var net := BestMatch(networks, address.cidr);
      if net == Null {
        // a gap between includes
        SkipToNextPool(address);
        return true;
      }
      var exclude := BestMatch(excludedNetworks, address.cidr);
      if CidrScan.PrefixOf(exclude) > net.pflen {
        SkipToExcludeEnd(address);
        return true;
      }
      // blocks of four and more addresses keep their two ends for themselves
      return net.pflen < 31 && (address.cidr == Host(net) || address.cidr == Broadcast(net));
    }

    /**
     * next: moves the caller's address to where the scan arrives, or invalidates it at the end of the list.
     * Works for any address of the caller and any list, also one that has grown since the iteration started.
     */
    method Next(address: CIDRAddress) returns (found: bool)
      requires Consistent()
      modifies this`last, address
      ensures Consistent()
      ensures last == if Valid(old(address.cidr)) then old(last) else AsAddress(CidrScan.LastAddress(networks))
      ensures found == Valid(address.cidr)
      ensures var r := Arrival(networks, excludedNetworks, Bound(last), Start(networks, old(address.cidr)));
              if found then address.cidr == V4(r, 32) else r == 0
    {
      ghost var end := if Valid(address.cidr) then last else AsAddress(CidrScan.LastAddress(networks));
      ghost var x := Start(networks, address.cidr);
      ghost var goal := Arrival(networks, excludedNetworks, Bound(end), x);
      ghost var started := false;
      var filtered := true;
      while filtered
        invariant Consistent()
        invariant if started then last == end else address.cidr == old(address.cidr) && last == old(last)
        invariant started && filtered ==> Valid(address.cidr)
        invariant filtered ==> x == Start(networks, address.cidr)
        invariant filtered ==> goal == Arrival(networks, excludedNetworks, Bound(end), x)
        invariant !filtered ==> started && if Valid(address.cidr) then address.cidr == V4(goal, 32) else goal == 0
        decreases filtered, V4_COUNT + 1 - x
      {
        filtered := false;
        if x > 0 {
          ArrivalTurn(networks, excludedNetworks, Bound(end), x);
        }
        NextSimple(address);
        started := true;
        if !Valid(address.cidr) {
          break;
        }
        filtered := SkipFiltered(address);
        x := if filtered then CidrScan.Step(networks, excludedNetworks, x) else x;
      }
      found := Valid(address.cidr);
    }
  }
}
