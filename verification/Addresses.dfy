/** IP addresses as byte slices: increment with carry, prefix masks, and the range of
    addresses of a block (section 3.1 of RFC 4632). */
module Addresses {
  import opened Powers

  type Byte = x: int | 0 <= x < 256

  /** Big-endian value. */
  function Value(b: seq<Byte>): nat {
    if |b| == 0 then 0 else Value(b[..|b| - 1]) * 256 + b[|b| - 1]
  }

  function BytesOf(v: nat, n: nat): (b: seq<Byte>)
    ensures |b| == n
  {
    if n == 0 then [] else BytesOf(v / 256, n - 1) + [v % 256]
  }

  lemma {:induction false} ValueBound(b: seq<Byte>)
    ensures Value(b) < Pow256(|b|)
  {
    if |b| == 0 {
    } else {
      ValueBound(b[..|b| - 1]);
    }
  }

  lemma {:induction false} ValueOfBytes(v: nat, n: nat)
    requires v < Pow256(n)
    ensures Value(BytesOf(v, n)) == v
  {
    if n == 0 {
    } else {
      ValueOfBytes(v / 256, n - 1);
      assert BytesOf(v, n)[..n - 1] == BytesOf(v / 256, n - 1);
    }
  }

  lemma {:induction false} BytesOfValue(b: seq<Byte>)
    ensures BytesOf(Value(b), |b|) == b
  {
    if |b| == 0 {
    } else {
      BytesOfValue(b[..|b| - 1]);
    }
  }

  // ----- incrementIP -----

  function Increment(b: seq<Byte>): (r: seq<Byte>)
    ensures |r| == |b|
  {
    if |b| == 0 then []
    else
      var last := |b| - 1;
      if b[last] < 255 then b[..last] + [b[last] + 1] else Increment(b[..last]) + [0]
  }

  /** Plus one, and from the last value back to zero. */
  lemma {:induction false} IncrementValue(b: seq<Byte>)
    ensures Value(Increment(b)) == if Value(b) + 1 == Pow256(|b|) then 0 else Value(b) + 1
  {
    if |b| == 0 {
    } else {
      var last := |b| - 1;
      var front := b[..last];
      var r := Increment(b);
      ValueBound(front);
      if b[last] < 255 {
        assert r[..last] == front;
      } else {
        assert r[..last] == Increment(front);
        IncrementValue(front);
      }
    }
  }

  /** The carry loop, in place. */
  method IncrementIP(ip: array<Byte>)
    modifies ip
    ensures ip[..] == Increment(old(ip[..]))
  {
    ghost var was := ip[..];
    var j := ip.Length - 1;
    ghost var tail: seq<Byte> := [];
    assert was[..j + 1] == was;
    while j >= 0
      invariant -1 <= j < ip.Length
      invariant |tail| == ip.Length - 1 - j
      invariant ip[..] == was[..j + 1] + tail
      invariant Increment(was) == Increment(was[..j + 1]) + tail
    {
      ip[j] := if ip[j] == 255 then 0 else ip[j] + 1;
      assert was[..j + 1][..j] == was[..j];
      if ip[j] > 0 {
        assert ip[..] == was[..j] + [was[j] + 1] + tail;
        return;
      }
      tail := [0] + tail;
      j := j - 1;
    }
  }

  // ----- masks -----

  /** How many bytes share these leading bits. */
  function Sharing(ones: nat): (size: nat)
    requires ones <= 8
    ensures 1 <= size <= 256
  {
    match ones
    case 0 => 256 case 1 => 128 case 2 => 64 case 3 => 32 case 4 => 16
    case 5 => 8 case 6 => 4 case 7 => 2 case _ => 1
  }

  lemma SharingIsPow2(ones: nat)
    requires ones <= 8
    ensures Sharing(ones) == Pow2(8 - ones)
  {
    assert Pow2(1) == 2 && Pow2(2) == 4 && Pow2(3) == 8 && Pow2(4) == 16;
    assert Pow2(5) == 2 * Pow2(4) && Pow2(6) == 2 * Pow2(5) && Pow2(7) == 2 * Pow2(6) && Pow2(8) == 2 * Pow2(7);
  }

  /** A byte with all but its `ones` leading bits cleared. */
  function MaskByte(x: Byte, ones: nat): Byte
    requires ones <= 8
  {
    match ones
    case 0 => 0
    case 1 => x - x % 128 case 2 => x - x % 64 case 3 => x - x % 32 case 4 => x - x % 16
    case 5 => x - x % 8 case 6 => x - x % 4 case 7 => x - x % 2 case _ => x
  }

  lemma MaskRoundsDown(x: Byte, ones: nat)
    requires ones <= 8
    ensures MaskByte(x, ones) == x - x % Sharing(ones)
  {
    match ones
    case 0 => assert x % 256 == x;
    case _ =>
  }

  function Ones(prefix: nat): (ones: nat)
    ensures ones <= 8
  {
    if prefix > 8 then 8 else prefix
  }

  function Rest(prefix: nat): nat {
    if prefix > 8 then prefix - 8 else 0
  }

  /** net.IP.Mask with the mask of this prefix length. */
  function Mask(b: seq<Byte>, prefix: nat): (r: seq<Byte>)
    ensures |r| == |b|
  {
    if |b| == 0 then [] else [MaskByte(b[0], Ones(prefix))] + Mask(b[1..], Rest(prefix))
  }

  /** net.IPNet.Contains: the masked bytes agree. */
  predicate Matches(net: seq<Byte>, ip: seq<Byte>, prefix: nat)
    requires |net| == |ip|
  {
    |net| == 0 ||
    (MaskByte(net[0], Ones(prefix)) == MaskByte(ip[0], Ones(prefix)) && Matches(net[1..], ip[1..], Rest(prefix)))
  }

  function BlockSize(n: nat, prefix: nat): (size: nat)
    ensures size >= 1
  {
    if prefix >= 8 * n then 1 else Pow2(8 * n - prefix)
  }

  lemma {:induction false} ValueFront(x: Byte, rest: seq<Byte>)
    ensures Value([x] + rest) == x * Pow256(|rest|) + Value(rest)
  {
    var b := [x] + rest;
    if |rest| == 0 {
      assert b[..0] == [];
    } else {
      var last := |rest| - 1;
      assert b[..|b| - 1] == [x] + rest[..last];
      ValueFront(x, rest[..last]);
    }
  }

  /** One byte: equal under the mask is a range. */
  lemma ByteBlock(x: Byte, y: Byte, ones: nat)
    requires ones <= 8
    ensures
      var m := MaskByte(x, ones);
      && m <= x && m + Sharing(ones) <= 256
      && (MaskByte(m, ones) == MaskByte(y, ones) <==> m <= y < m + Sharing(ones))
  {
    MaskRoundsDown(x, ones);
    MaskRoundsDown(y, ones);
    MaskRoundsDown(MaskByte(x, ones), ones);
    var h := Sharing(ones);
    assert h * (256 / h) == 256;
    RoundedRange(x, y, h, 256 / h);
  }

  lemma RoundedRange(x: nat, y: nat, h: nat, blocks: nat)
    requires h > 0 && x < 256 && y < 256 && h * blocks == 256
    ensures
      var m := x - x % h;
      && m + h <= 256
      && (m - m % h == y - y % h <==> m <= y < m + h)
  {
    RoundDown(x, h);
    RoundDown(y, h);
    RoundDown(h * (x / h), h);
    Below(x / h, blocks, h, x);
    Below(y / h, x / h, h, y);
    Below(y / h, x / h + 1, h, y);
    assert h * (x / h + 1) == h * (x / h) + h;
    Below(h * (x / h) / h, x / h + 1, h, h * (x / h));
    Below(h * (x / h) / h, x / h, h, h * (x / h));
    AtLeastOneMore(x / h, blocks, h);
  }

  lemma RoundDown(x: nat, h: nat)
    requires h > 0
    ensures x - x % h == h * (x / h) && h * (x / h) <= x < h * (x / h) + h
  {
  }

  /** The quotient is below q exactly when the number is below q times h. */
  lemma Below(c: int, q: int, h: int, y: int)
    requires h > 0 && h * c <= y < h * c + h
    ensures c < q <==> y < h * q
  {
    if c < q {
      assert h * (c + 1) <= h * q;
    } else {
      assert h * q <= h * c;
    }
  }

  lemma AtLeastOneMore(a: int, blocks: int, h: int)
    requires h > 0 && a < blocks
    ensures h * a + h <= h * blocks
  {
    assert h * (a + 1) <= h * blocks;
  }

  lemma MaskFront(b: seq<Byte>, ip: seq<Byte>, prefix: nat)
    requires |b| == |ip| > 0
    ensures
      var m := MaskByte(b[0], Ones(prefix));
      var p := Pow256(|b| - 1);
      && Value(b) == b[0] * p + Value(b[1..]) && Value(ip) == ip[0] * p + Value(ip[1..])
      && Value(Mask(b, prefix)) == m * p + Value(Mask(b[1..], Rest(prefix)))
      && (Matches(Mask(b, prefix), ip, prefix) <==>
            MaskByte(m, Ones(prefix)) == MaskByte(ip[0], Ones(prefix)) && Matches(Mask(b[1..], Rest(prefix)), ip[1..], Rest(prefix)))
  {
    assert b == [b[0]] + b[1..] && ip == [ip[0]] + ip[1..];
    assert Mask(b, prefix)[1..] == Mask(b[1..], Rest(prefix));
    ValueFront(b[0], b[1..]);
    ValueFront(ip[0], ip[1..]);
    ValueFront(MaskByte(b[0], Ones(prefix)), Mask(b[1..], Rest(prefix)));
  }

  lemma ZeroTimes(m: int, p: int)
    requires m == 0
    ensures m * p == 0
  {
  }

  /** A mask without leading ones clears everything and matches everything. */
  lemma {:induction false} MaskNothing(b: seq<Byte>, ip: seq<Byte>, prefix: nat)
    requires |ip| == |b| && prefix == 0
    ensures Value(Mask(b, prefix)) == 0
    ensures Matches(Mask(b, prefix), ip, prefix)
  {
    if |b| == 0 {
    } else {
      var m := MaskByte(b[0], prefix);
      MaskNothing(b[1..], ip[1..], prefix);
      MaskFront(b, ip, prefix);
      ZeroTimes(m, Pow256(|b| - 1));
    }
  }

  /** The leading byte decides, up to what follows it. */
  lemma Leading(a: int, x: int, rest: int, p: int)
    requires 0 <= rest < p
    ensures a * p <= x * p + rest <==> a <= x
  {
    if a <= x {
      MoreTimes(a, x, p);
    } else {
      MoreTimes(x + 1, a, p);
      assert (x + 1) * p == x * p + p;
    }
  }

  lemma MoreTimes(a: int, b: int, p: int)
    requires a <= b && p >= 0
    ensures a * p <= b * p
  {
    assert (b - a) * p >= 0;
    assert (b - a) * p == b * p - a * p;
  }

  lemma {:induction false} SizeOfBlock(n: nat, prefix: nat)
    requires n > 0
    ensures prefix > 8 ==> BlockSize(n, prefix) == BlockSize(n - 1, prefix - 8)
    ensures prefix <= 8 ==> BlockSize(n, prefix) == Pow2(8 - prefix) * Pow256(n - 1)
  {
    if prefix <= 8 {
      Pow256IsPow2(n - 1);
      Pow2Sum(8 - prefix, 8 * (n - 1));
    }
  }

  /** The block of an address under a prefix: a range within the values of that length. */
  ghost predicate IsBlock(b: seq<Byte>, ip: seq<Byte>, prefix: nat)
    requires |b| == |ip|
  {
    var net := Value(Mask(b, prefix));
    && net <= Value(b)
    && net + BlockSize(|b|, prefix) <= Pow256(|b|)
    && (Matches(Mask(b, prefix), ip, prefix) <==> net <= Value(ip) < net + BlockSize(|b|, prefix))
  }

  /** The addresses that match the network are the block from its value on. */
  lemma {:induction false} BlockIsRange(b: seq<Byte>, ip: seq<Byte>, prefix: nat)
    requires |b| == |ip|
    ensures IsBlock(b, ip, prefix)
  {
    if |b| == 0 {
    } else if prefix <= 8 {
      EndsInFirstByte(b, ip, prefix);
    } else {
      BlockIsRange(b[1..], ip[1..], prefix - 8);
      EndsInLaterByte(b, ip, prefix);
    }
  }

  lemma EndsInFirstByte(b: seq<Byte>, ip: seq<Byte>, prefix: nat)
    requires |b| == |ip| > 0 && prefix <= 8
    ensures IsBlock(b, ip, prefix)
  {
    var rest, ipRest := b[1..], ip[1..];
    var m := MaskByte(b[0], prefix);
    MaskFront(b, ip, prefix);
    ValueBound(rest);
    ValueBound(ipRest);
    ByteBlock(b[0], ip[0], prefix);
    SizeOfBlock(|b|, prefix);
    MaskNothing(rest, ipRest, 0);
    SharingIsPow2(prefix);
    WideBlock(m, b[0], ip[0], Sharing(prefix), Value(rest), Value(ipRest), Pow256(|rest|));
  }

  lemma EndsInLaterByte(b: seq<Byte>, ip: seq<Byte>, prefix: nat)
    requires |b| == |ip| > 0 && prefix > 8
    requires IsBlock(b[1..], ip[1..], prefix - 8)
    ensures IsBlock(b, ip, prefix)
  {
    var rest, ipRest := b[1..], ip[1..];
    var p := Pow256(|rest|);
    MaskFront(b, ip, prefix);
    ValueBound(rest);
    ValueBound(ipRest);
    SizeOfBlock(|b|, prefix);
    NarrowBlock(b[0], ip[0], Value(Mask(rest, prefix - 8)), Value(ipRest), BlockSize(|rest|, prefix - 8), p);
    Leading(b[0], b[0], Value(rest), p);
  }

  lemma WideBlock(m: int, x: int, y: int, size: int, xRest: int, yRest: int, p: int)
    requires 0 <= yRest < p && 0 <= xRest && m <= x && m + size <= 256
    ensures m * p <= x * p + xRest
    ensures m * p + size * p <= 256 * p
    ensures m <= y < m + size <==> m * p <= y * p + yRest < m * p + size * p
  {
    Leading(m, x, 0, p);
    Leading(m, y, yRest, p);
    Leading(m + size, y, yRest, p);
    Leading(m + size, 256, 0, p);
    assert (m + size) * p == m * p + size * p;
  }

  lemma NarrowBlock(m: int, y: int, net: int, yRest: int, size: int, p: int)
    requires 0 <= yRest < p && 0 <= net && net + size <= p && 0 <= m < 256
    ensures m * p + net + size <= 256 * p
    ensures m == y && net <= yRest < net + size <==> m * p + net <= y * p + yRest < m * p + net + size
  {
    Leading(m, y, yRest, p);
    Leading(m + 1, y, yRest, p);
    Leading(m + 1, 256, 0, p);
    assert (m + 1) * p == m * p + p;
  }

  // ----- the network address is a multiple of the size of the block -----

  lemma Regrouped(k: int, h: int, p: int)
    ensures (h * k) * p == k * (h * p)
  {
  }

  lemma Collected(m: nat, p: nat, q: nat, k: nat, size: nat) returns (sum: nat)
    requires p == size * q
    ensures m * p + k * size == sum * size
  {
    MoreTimes(0, m, q);
    var mq: nat := m * q;
    sum := mq + k;
    assert m * (size * q) == mq * size;
    assert sum * size == mq * size + k * size;
  }

  lemma SizeDivides(n: nat, prefix: nat) returns (q: nat)
    requires n > 0 && prefix > 8
    ensures Pow256(n - 1) == BlockSize(n, prefix) * q
  {
    var bits := 8 * (n - 1);
    Pow256IsPow2(n - 1);
    SizeOfBlock(n, prefix);
    if prefix - 8 >= bits {
      q := Pow256(n - 1);
    } else {
      Pow2Sum(bits - (prefix - 8), prefix - 8);
      q := Pow2(prefix - 8);
    }
  }

  lemma {:induction false} NetworkIsMultiple(b: seq<Byte>, prefix: nat) returns (k: nat)
    ensures Value(Mask(b, prefix)) == k * BlockSize(|b|, prefix)
  {
    if |b| == 0 {
      k := 0;
    } else if prefix <= 8 {
      k := MultipleInFirstByte(b, prefix);
    } else {
      var k1 := NetworkIsMultiple(b[1..], prefix - 8);
      k := MultipleInLaterByte(b, prefix, k1);
    }
  }

  lemma MultipleInFirstByte(b: seq<Byte>, prefix: nat) returns (k: nat)
    requires |b| > 0 && prefix <= 8
    ensures Value(Mask(b, prefix)) == k * BlockSize(|b|, prefix)
  {
    var h, m, p := Sharing(prefix), MaskByte(b[0], prefix), Pow256(|b| - 1);
    k := b[0] / h;
    assert Value(Mask(b, prefix)) == m * p by {
      MaskFront(b, b, prefix);
      MaskNothing(b[1..], b[1..], 0);
    }
    assert BlockSize(|b|, prefix) == h * p by {
      SizeOfBlock(|b|, prefix);
      SharingIsPow2(prefix);
    }
    assert m == h * k by {
      MaskRoundsDown(b[0], prefix);
      WholeParts(b[0], h);
    }
    Regrouped(k, h, p);
  }

  lemma WholeParts(x: nat, h: nat)
    requires h > 0
    ensures x - x % h == h * (x / h)
  {
  }

  lemma MultipleInLaterByte(b: seq<Byte>, prefix: nat, k1: nat) returns (k: nat)
    requires |b| > 0 && prefix > 8
    requires Value(Mask(b[1..], prefix - 8)) == k1 * BlockSize(|b| - 1, prefix - 8)
    ensures Value(Mask(b, prefix)) == k * BlockSize(|b|, prefix)
  {
    var m: nat := MaskByte(b[0], 8);
    var q := SizeDivides(|b|, prefix);
    var p, size := Pow256(|b| - 1), BlockSize(|b|, prefix);
    k := Collected(m, p, q, k1, size);
    assert Value(Mask(b, prefix)) == m * p + k1 * size by {
      MaskFront(b, b, prefix);
      SizeOfBlock(|b|, prefix);
    }
  }

  lemma QuotientIs(v: nat, k: nat, size: nat)
    requires size > 0
    ensures k * size <= v < k * size + size <==> v / size == k
    ensures k * size <= v < k * size + size ==> (v % size == 0 <==> v == k * size)
  {
    assert v == size * (v / size) + v % size;
    MoreTimesIff(v / size, k, size);
    MoreTimesIff(k, v / size, size);
  }

  lemma MoreTimesIff(a: int, b: int, p: int)
    requires p > 0
    ensures a < b ==> a * p + p <= b * p
  {
    if a < b {
      MoreTimes(a + 1, b, p);
      assert (a + 1) * p == a * p + p;
    }
  }
}
