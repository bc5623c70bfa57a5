/** One address or network in CIDR form (CIDRAddress): order, increment and decrement on its bytes. */
module CidrAddress {
  import opened Bytes

  const V4_COUNT: int := 0x1_0000_0000
  const V6_COUNT: int := 0x1_0000_0000_0000_0000_0000_0000_0000_0000

  type V4Number = x: int | 0 <= x < V4_COUNT
  type V6Number = x: int | 0 <= x < V6_COUNT
  type V4Prefix = p: int | 0 <= p <= 32
  type V6Prefix = p: int | 0 <= p <= 128

  /** The structure behind the pointer: absent, or an address (as a number) with a prefix length. */
  datatype Cidr = Null | V4(addr: V4Number, pflen: V4Prefix) | V6(addr6: V6Number, pflen6: V6Prefix)

  /** The absent pointer, 0.0.0.0 and :: are the invalid addresses. */
  predicate Valid(c: Cidr) {
    match c
    case Null => false
    case V4(a, _) => a != 0
    case V6(a, _) => a != 0
  }

  /** Host form: same address, full prefix. */
  function Host(c: Cidr): Cidr {
    match c
    case V4(a, _) => if a != 0 then V4(a, 32) else Null
    case V6(a, _) => if a != 0 then V6(a, 128) else Null
    case Null => Null
  }

  function Succ(c: Cidr): Cidr {
    if !Valid(c) then c
    else match c
      case V4(a, _) => V4(PlusOne(a, V4_COUNT), 32)
      case V6(a, _) => V6(PlusOne(a, V6_COUNT), 128)
  }

  function Pred(c: Cidr): Cidr {
    if !Valid(c) then c
    else match c
      case V4(a, _) => V4(MinusOne(a, V4_COUNT), 32)
      case V6(a, _) => V6(MinusOne(a, V6_COUNT), 128)
  }

  predicate AllOnes(c: Cidr) {
    (c.V4? && c.addr == V4_COUNT - 1) || (c.V6? && c.addr6 == V6_COUNT - 1)
  }

  /** -- undoes ++ exactly when ++ does not wrap; either way the prefix is lost. */
  lemma PredUndoesSucc(c: Cidr)
    requires Valid(c)
    ensures Pred(Succ(c)) == Host(c) <==> !AllOnes(c)
    ensures AllOnes(c) ==> !Valid(Succ(c))
  {
  }

  /** ++ undoes -- except at address 1, below which lies the invalid address. */
  lemma SuccUndoesPred(c: Cidr)
    requires Valid(c)
    ensures Succ(Pred(c)) == Host(c) <==> (match c case V4(a, _) => a != 1 case V6(a, _) => a != 1)
  {
  }

  /** Invalid addresses below IPv4, IPv4 below IPv6. */
  function Rank(c: Cidr): nat {
    if !Valid(c) then 0 else if c.V4? then 1 else 2
  }

  function Number(c: Cidr): nat {
    if !Valid(c) then 0 else if c.V4? then c.addr else c.addr6
  }

  function Order(a: Cidr, b: Cidr): (r: int) {
    if Rank(a) != Rank(b) then (if Rank(a) < Rank(b) then -1 else 1)
    else if Number(a) < Number(b) then -1
    else if Number(a) > Number(b) then 1
    else 0
  }

  predicate Less(a: Cidr, b: Cidr) { Order(a, b) == -1 }

  predicate Greater(a: Cidr, b: Cidr) { Order(a, b) == 1 }

  lemma LessIsStrictWeakOrder(a: Cidr, b: Cidr, c: Cidr)
    ensures !Less(a, a)
    ensures Less(a, b) && Less(b, c) ==> Less(a, c)
    ensures !Less(a, b) && !Less(b, a) && !Less(b, c) && !Less(c, b) ==> !Less(a, c) && !Less(c, a)
    ensures Greater(a, b) <==> Less(b, a)
    ensures Order(a, b) == 0 <==> !Less(a, b) && !Less(b, a)
  {
  }

  /** The order on the addresses themselves. */
  lemma OrderMeans(a: Cidr, b: Cidr)
    ensures a.V4? && b.V4? && a.addr > 0 && b.addr > 0 ==>
              (Less(a, b) <==> a.addr < b.addr) && (Order(a, b) == 0 <==> a.addr == b.addr)
    ensures a.V6? && b.V6? && a.addr6 > 0 && b.addr6 > 0 ==>
              (Less(a, b) <==> a.addr6 < b.addr6) && (Order(a, b) == 0 <==> a.addr6 == b.addr6)
    ensures a.V4? && b.V6? && a.addr > 0 && b.addr6 > 0 ==> Less(a, b)
    ensures (a == Null || (a.V4? && a.addr == 0) || (a.V6? && a.addr6 == 0)) ==>
              (Less(a, b) <==> Valid(b)) && (Order(a, b) == 0 <==> !Valid(b))
  {
  }

  /** ++ gives the host address behind, with no address of the protocol between; all ones wrap to the invalid zero. */
  lemma SuccIsNext(c: Cidr, d: Cidr)
    requires Valid(c)
    ensures c.V4? ==> Succ(c) == V4(if c.addr == 0xffff_ffff then 0 else c.addr + 1, 32)
    ensures c.V6? ==>
              Succ(c) == V6(if c.addr6 == 0xffff_ffff_ffff_ffff_ffff_ffff_ffff_ffff then 0 else c.addr6 + 1, 128)
    ensures !AllOnes(c) && c.V4? == d.V4? && Less(c, d) ==> !Less(d, Succ(c))
  {
  }

  /** -- gives the host address before. */
  lemma PredIsPrevious(c: Cidr, d: Cidr)
    requires Valid(c)
    ensures c.V4? ==> Pred(c) == V4(c.addr - 1, 32)
    ensures c.V6? ==> Pred(c) == V6(c.addr6 - 1, 128)
    ensures Valid(Pred(c)) && Less(d, c) ==> !Less(Pred(c), d)
  {
  }

  lemma ByteCounts()
    ensures Base(4) == V4_COUNT
    ensures Base(16) == V6_COUNT
  {
    assert Base(1) == 0x100 && Base(2) == 0x1_0000;
    assert Base(3) == 0x100_0000 && Base(4) == 0x1_0000_0000;
    assert Base(5) == 0x100_0000_0000 && Base(6) == 0x1_0000_0000_0000;
    assert Base(7) == 0x100_0000_0000_0000 && Base(8) == 0x1_0000_0000_0000_0000;
    assert Base(9) == 256 * Base(8) && Base(10) == 256 * Base(9);
    assert Base(11) == 256 * Base(10) && Base(12) == 256 * Base(11);
    assert Base(13) == 256 * Base(12) && Base(14) == 256 * Base(13);
    assert Base(15) == 256 * Base(14) && Base(16) == 256 * Base(15);
  }

  /** cidr_to_inaddr and cidr_to_in6addr: the address in network byte order, in a buffer of the caller. */
  method ToBytes(number: nat, count: nat) returns (bytes: array<byte>)
    requires number < Base(count)
    ensures fresh(bytes) && bytes.Length == count && Num(bytes[..]) == number
  {
    var digits := Digits(number, count);
    bytes := new byte[count](i requires 0 <= i < count => digits[i]);
    assert bytes[..] == digits;
    NumOfDigits(number, count);
  }

  /** The loop of compare, on two valid addresses of one protocol. */
  method CompareNumbers(a: nat, b: nat, count: nat) returns (r: int)
    requires a < Base(count) && b < Base(count)
    ensures r == (if a < b then -1 else if a > b then 1 else 0)
  {
    var bytes1 := ToBytes(a, count);
    var bytes2 := ToBytes(b, count);
    r := CompareBytes(bytes1, bytes2);
  }

  class CIDRAddress {
    var cidr: Cidr

    constructor ()
      ensures cidr == Null
    {
      cidr := Null;
    }

    method Set(from: Cidr)
      modifies this
      ensures cidr == from
    {
      cidr := from;
    }

    method Invalidate()
      modifies this
      ensures cidr == Null
    {
      cidr := Null;
    }

    /** operator++: nothing on an invalid address, otherwise the byte loop and a host prefix. */
    method Increment()
      modifies this
      ensures cidr == Succ(old(cidr))
    {
      if !Valid(cidr) {
        return;
      }
      ByteCounts();
      if cidr.V4? {
        var bytes := ToBytes(cidr.addr, 4);
        IncrementInPlace(bytes);
        cidr := V4(Num(bytes[..]), 32);
      } else {
        var bytes := ToBytes(cidr.addr6, 16);
        IncrementInPlace(bytes);
        cidr := V6(Num(bytes[..]), 128);
      }
    }

    /** operator--. */
    method Decrement()
      modifies this
      ensures cidr == Pred(old(cidr))
    {
      if !Valid(cidr) {
        return;
      }
      ByteCounts();
      if cidr.V4? {
        var bytes := ToBytes(cidr.addr, 4);
        DecrementInPlace(bytes);
        cidr := V4(Num(bytes[..]), 32);
      } else {
        var bytes := ToBytes(cidr.addr6, 16);
        DecrementInPlace(bytes);
        cidr := V6(Num(bytes[..]), 128);
      }
    }

    method CompareTo(other: CIDRAddress) returns (r: int)
      ensures r == Order(cidr, other.cidr)
    {
      if !Valid(cidr) && !Valid(other.cidr) {
        return 0;
      }
      if !Valid(cidr) || !Valid(other.cidr) {
        if Valid(cidr) {
          return 1;
        } else {
          return -1;
        }
      }
      ByteCounts();
      if cidr.V4? && other.cidr.V4? {
        r := CompareNumbers(cidr.addr, other.cidr.addr, 4);
        return;
      }
      if cidr.V6? && other.cidr.V6? {
        r := CompareNumbers(cidr.addr6, other.cidr.addr6, 16);
        return;
      }
      if cidr.V6? && other.cidr.V4? {
        return 1;
      } else {
        return -1;
      }
    }
  }
}
