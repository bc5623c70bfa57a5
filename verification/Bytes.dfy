/** Big-endian byte strings, as the address structures hold them, and the numbers they stand for. */
module Bytes {

  type byte = x: int | 0 <= x < 256

  /** 256 to the power k: how many values k bytes can take. */
  function Base(k: nat): (r: nat)
    ensures r > 0
  {
    if k == 0 then 1 else 256 * Base(k - 1)
  }

  function Num(b: seq<byte>): (n: nat)
    ensures n < Base(|b|)
  {
    if b == [] then 0 else Num(b[..|b| - 1]) * 256 + b[|b| - 1]
  }

  function Digits(n: nat, k: nat): (b: seq<byte>)
    ensures |b| == k
  {
    if k == 0 then [] else Digits(n / 256, k - 1) + [n % 256]
  }

  /** Successor and predecessor modulo m. */
  function PlusOne(n: nat, m: nat): nat {
    if n + 1 == m then 0 else n + 1
  }

  function MinusOne(n: nat, m: nat): nat
    requires m > 0
  {
    if n == 0 then m - 1 else n - 1
  }

  /** The carry chain of an increment: trailing 255s become 0, the byte before them grows by one. */
  function Incremented(b: seq<byte>): (r: seq<byte>)
    ensures |r| == |b|
  {
    if b == [] then []
    else
      var init, last := b[..|b| - 1], b[|b| - 1];
      if last == 255 then Incremented(init) + [0] else init + [last + 1]
  }

  /** The borrow chain of a decrement. */
  function Decremented(b: seq<byte>): (r: seq<byte>)
    ensures |r| == |b|
  {
    if b == [] then []
    else
      var init, last := b[..|b| - 1], b[|b| - 1];
      if last == 0 then Decremented(init) + [255] else init + [last - 1]
  }

  lemma {:induction false} NumAppend(b: seq<byte>, last: byte)
    ensures Num(b + [last]) == Num(b) * 256 + last
  {
    assert (b + [last])[..|b|] == b;
  }

  lemma {:induction false} NumOfDigits(n: nat, k: nat)
    requires n < Base(k)
    ensures Num(Digits(n, k)) == n
  {
    if k > 0 {
      NumOfDigits(n / 256, k - 1);
      NumAppend(Digits(n / 256, k - 1), n % 256);
    }
  }

  lemma {:induction false} IncrementedAddsOne(b: seq<byte>)
    ensures Num(Incremented(b)) == PlusOne(Num(b), Base(|b|))
  {
    if b != [] {
      var init, last := b[..|b| - 1], b[|b| - 1];
      if last == 255 {
        IncrementedAddsOne(init);
        NumAppend(Incremented(init), 0);
      } else {
        NumAppend(init, last + 1);
      }
    }
  }

  lemma {:induction false} DecrementedTakesOne(b: seq<byte>)
    ensures Num(Decremented(b)) == MinusOne(Num(b), Base(|b|))
  {
    if b != [] {
      var init, last := b[..|b| - 1], b[|b| - 1];
      if last == 0 {
        DecrementedTakesOne(init);
        NumAppend(Decremented(init), 255);
      } else {
        NumAppend(init, last - 1);
      }
    }
  }

  /** The first differing byte decides, whatever follows it. */
  lemma {:induction false} FirstDifferenceDecides(a: seq<byte>, b: seq<byte>, i: nat)
    requires |a| == |b| && i < |a|
    requires a[..i] == b[..i] && a[i] < b[i]
    ensures Num(a) < Num(b)
    decreases |a|
  {
    var n := |a| - 1;
    if i < n {
      assert a[..n][..i] == a[..i] == b[..i] == b[..n][..i];
      FirstDifferenceDecides(a[..n], b[..n], i);
    } else {
      assert a[..n] == a[..i] && b[..n] == b[..i];
    }
  }

  // What is true when the carry has reached index i: the bytes up to i are untouched, and those
  // after it are already those of the incremented string.
  ghost predicate CarryAt(was: seq<byte>, now: seq<byte>, i: int) {
    && |now| == |was|
    && -1 <= i < |was|
    && now[..i + 1] == was[..i + 1]
    && Incremented(was) == Incremented(was[..i + 1]) + now[i + 1..]
  }

  ghost predicate BorrowAt(was: seq<byte>, now: seq<byte>, i: int) {
    && |now| == |was|
    && -1 <= i < |was|
    && now[..i + 1] == was[..i + 1]
    && Decremented(was) == Decremented(was[..i + 1]) + now[i + 1..]
  }

  lemma CarryStep(was: seq<byte>, now: seq<byte>, i: nat)
    requires CarryAt(was, now, i)
    ensures was[i] == 255 ==> CarryAt(was, now[i := 0], i - 1)
    ensures was[i] != 255 ==> now[i := was[i] + 1] == Incremented(was)
  {
    var head := was[..i + 1];
    assert head[..i] == was[..i] == now[..i] && head[i] == now[i];
    if was[i] == 255 {
      assert now[i := 0][i..] == [0] + now[i + 1..];
    } else {
      assert now[i := was[i] + 1] == now[..i] + [was[i] + 1] + now[i + 1..];
    }
  }

  lemma BorrowStep(was: seq<byte>, now: seq<byte>, i: nat)
    requires BorrowAt(was, now, i)
    ensures was[i] == 0 ==> BorrowAt(was, now[i := 255], i - 1)
    ensures was[i] != 0 ==> now[i := was[i] - 1] == Decremented(was)
  {
    var head := was[..i + 1];
    assert head[..i] == was[..i] == now[..i] && head[i] == now[i];
    if was[i] == 0 {
      assert now[i := 255][i..] == [255] + now[i + 1..];
    } else {
      assert now[i := was[i] - 1] == now[..i] + [was[i] - 1] + now[i + 1..];
    }
  }

  lemma CarryDone(was: seq<byte>, now: seq<byte>)
    requires CarryAt(was, now, -1)
    ensures now == Incremented(was)
  {
    assert was[..0] == [] && now[0..] == now;
  }

  lemma BorrowDone(was: seq<byte>, now: seq<byte>)
    requires BorrowAt(was, now, -1)
    ensures now == Decremented(was)
  {
    assert was[..0] == [] && now[0..] == now;
  }

  /** operator++ on the bytes of an address: add one to the last byte, and go on to the left while it wraps. */
  method IncrementInPlace(bytes: array<byte>)
    modifies bytes
    ensures Num(bytes[..]) == PlusOne(Num(old(bytes[..])), Base(bytes.Length))
  {
    ghost var was := bytes[..];
    IncrementedAddsOne(was);
    assert was[..bytes.Length] == was;
    var i := bytes.Length - 1;
    while i >= 0
      invariant CarryAt(was, bytes[..], i)
    {
      ghost var now := bytes[..];
      CarryStep(was, now, i);
      bytes[i] := if bytes[i] == 255 then 0 else bytes[i] + 1;  // unsigned char arithmetic wraps
      assert bytes[..] == now[i := bytes[i]];
      if bytes[i] != 0 {
        return;
      }
      i := i - 1;
    }
    CarryDone(was, bytes[..]);
  }

  /** operator-- on the bytes of an address. */
  method DecrementInPlace(bytes: array<byte>)
    modifies bytes
    ensures Num(bytes[..]) == MinusOne(Num(old(bytes[..])), Base(bytes.Length))
  {
    ghost var was := bytes[..];
    DecrementedTakesOne(was);
    assert was[..bytes.Length] == was;
    var i := bytes.Length - 1;
    while i >= 0
      invariant BorrowAt(was, bytes[..], i)
    {
      ghost var now := bytes[..];
      BorrowStep(was, now, i);
      bytes[i] := if bytes[i] == 0 then 255 else bytes[i] - 1;  // unsigned char arithmetic wraps
      assert bytes[..] == now[i := bytes[i]];
      if bytes[i] != 255 {
        return;
      }
      i := i - 1;
    }
    BorrowDone(was, bytes[..]);
  }

  /** The byte loop of compare: from the most significant byte, the first difference decides. */
  method CompareBytes(a: array<byte>, b: array<byte>) returns (r: int)
    requires a.Length == b.Length
    ensures r == (if Num(a[..]) < Num(b[..]) then -1 else if Num(a[..]) > Num(b[..]) then 1 else 0)
  {
    for i := 0 to a.Length
      invariant a[..i] == b[..i]
    {
      if a[i] < b[i] {
        FirstDifferenceDecides(a[..], b[..], i);
        return -1;
      }
      if a[i] > b[i] {
        FirstDifferenceDecides(b[..], a[..], i);
        return 1;
      }
    }
    assert a[..] == b[..];
    return 0;
  }
}
