/** Addresses and blocks as text, and the test by which the allocator passes over the
    network address: whether the text of the block contains the text of the address. */
module AddressText {
  import opened Text
  import opened Decimal
  import opened Addresses

  /** net.IP.String of an IPv4 address. */
  function Dotted(ip: seq<Byte>): string
    requires |ip| == 4
  {
    Itoa(ip[0]) + "." + (Itoa(ip[1]) + "." + (Itoa(ip[2]) + "." + Itoa(ip[3])))
  }

  /** net.IPNet.String. */
  function BlockText(net: seq<Byte>, prefix: nat): string
    requires |net| == 4
  {
    Dotted(net) + "/" + Itoa(prefix)
  }

  lemma DottedInjective(a: seq<Byte>, b: seq<Byte>)
    requires |a| == |b| == 4 && Dotted(a) == Dotted(b)
    ensures a == b
  {
    var a3, b3 := Itoa(a[3]), Itoa(b[3]);
    var a2, b2 := Itoa(a[2]) + "." + a3, Itoa(b[2]) + "." + b3;
    var a1, b1 := Itoa(a[1]) + "." + a2, Itoa(b[1]) + "." + b2;
    HeadUnique(Itoa(a[0]), a1, Itoa(b[0]), b1, '.');
    HeadUnique(Itoa(a[1]), a2, Itoa(b[1]), b2, '.');
    HeadUnique(Itoa(a[2]), a3, Itoa(b[2]), b3, '.');
    forall k | 0 <= k < 4 ensures a[k] == b[k] {
      ItoaInjective(a[k], b[k]);
    }
  }

  lemma DotsInDotted(ip: seq<Byte>)
    requires |ip| == 4
    ensures Occurrences(Dotted(ip), '.') == 3
  {
    forall k | 0 <= k < 4 ensures Occurrences(Itoa(ip[k]), '.') == 0 {
      OccurrencesZero(Itoa(ip[k]), '.');
    }
    var t3 := Itoa(ip[3]);
    var t2 := Itoa(ip[2]) + "." + t3;
    var t1 := Itoa(ip[1]) + "." + t2;
    DotBetween(Itoa(ip[2]), t3);
    DotBetween(Itoa(ip[1]), t2);
    DotBetween(Itoa(ip[0]), t1);
  }

  lemma DotBetween(a: string, b: string)
    ensures Occurrences(a + "." + b, '.') == Occurrences(a, '.') + 1 + Occurrences(b, '.')
  {
    OccurrencesConcat(a + ".", b, '.');
    OccurrencesConcat(a, ".", '.');
    assert "."[1..] == "";
  }

  /** A text without the separator that is a prefix of head + separator + tail is a prefix of the head. */
  lemma PrefixWithin(t: string, post: string, head: string, tail: string, sep: char)
    requires sep !in t && t + post == head + [sep] + tail
    ensures |t| <= |head| && t == head[..|t|]
  {
    var s := head + [sep] + tail;
    assert s[|head|] == sep;
    assert forall k | 0 <= k < |t| :: t[k] == s[k];
    assert t == (t + post)[..|t|];
  }

  /** A number whose decimal is a prefix or a suffix of another's is at most that number,
      and equal only to itself. */
  lemma PartIsSmaller(a: nat, b: nat)
    requires |Itoa(a)| <= |Itoa(b)|
    requires Itoa(a) == Itoa(b)[..|Itoa(a)|] || Itoa(a) == Itoa(b)[|Itoa(b)| - |Itoa(a)|..]
    ensures a <= b
  {
    if a > b {
      ItoaLengthMonotone(b, a);
      ItoaInjective(a, b);
      assert false;
    }
  }

  /** Where the text of an address occurs in the text of a block, the middle bytes agree
      and the outer ones are at most those of the block. */
  lemma OccurrenceBytes(net: seq<Byte>, prefix: nat, ip: seq<Byte>, i: nat)
    requires |net| == |ip| == 4 && OccursAt(BlockText(net, prefix), Dotted(ip), i)
    ensures ip[0] <= net[0] && ip[1] == net[1] && ip[2] == net[2] && ip[3] <= net[3]
  {
    var text := BlockText(net, prefix);
    var pre, post := text[..i], text[i + |Dotted(ip)|..];
    assert text == pre + Dotted(ip) + post;
    NoDotsAround(net, prefix, ip, pre, post);
    OuterBytes(net, prefix, ip, pre, post);
  }

  lemma NoDotsAround(net: seq<Byte>, prefix: nat, ip: seq<Byte>, pre: string, post: string)
    requires |net| == |ip| == 4 && BlockText(net, prefix) == pre + Dotted(ip) + post
    ensures '.' !in pre && '.' !in post
  {
    var digits := Itoa(prefix);
    OccurrencesConcat(pre + Dotted(ip), post, '.');
    OccurrencesConcat(pre, Dotted(ip), '.');
    OccurrencesConcat(Dotted(net) + "/", digits, '.');
    OccurrencesConcat(Dotted(net), "/", '.');
    assert "/"[1..] == "";
    DotsInDotted(net);
    DotsInDotted(ip);
    OccurrencesZero(digits, '.');
    OccurrencesZero(pre, '.');
    OccurrencesZero(post, '.');
  }

  lemma OuterBytes(net: seq<Byte>, prefix: nat, ip: seq<Byte>, pre: string, post: string)
    requires |net| == |ip| == 4 && BlockText(net, prefix) == pre + Dotted(ip) + post
    requires '.' !in pre && '.' !in post
    ensures ip[0] <= net[0] && ip[1] == net[1] && ip[2] == net[2] && ip[3] <= net[3]
  {
    var n0, n1, n2, n3 := Itoa(net[0]), Itoa(net[1]), Itoa(net[2]), Itoa(net[3]);
    var p0, p1, p2, p3 := Itoa(ip[0]), Itoa(ip[1]), Itoa(ip[2]), Itoa(ip[3]);
    var tail := "/" + Itoa(prefix);
    Regroup(n0, n1, n2, n3, "", tail);
    Regroup(p0, p1, p2, p3, pre, post);
    assert BlockText(net, prefix) == "" + Dotted(net) + tail;
    HeadUnique("" + n0, n1 + "." + (n2 + "." + (n3 + tail)), pre + p0, p1 + "." + (p2 + "." + (p3 + post)), '.');
    HeadUnique(n1, n2 + "." + (n3 + tail), p1, p2 + "." + (p3 + post), '.');
    HeadUnique(n2, n3 + tail, p2, p3 + post, '.');
    ItoaInjective(net[1], ip[1]);
    ItoaInjective(net[2], ip[2]);
    assert n0 == pre + p0;
    assert p0 == n0[|n0| - |p0|..];
    PartIsSmaller(ip[0], net[0]);
    assert n3 + tail == n3 + ['/'] + Itoa(prefix);
    PrefixWithin(p3, post, n3, Itoa(prefix), '/');
    PartIsSmaller(ip[3], net[3]);
  }

  lemma Regroup(a: string, b: string, c: string, d: string, pre: string, post: string)
    ensures pre + (a + "." + (b + "." + (c + "." + d))) + post
      == (pre + a) + ['.'] + (b + "." + (c + "." + (d + post)))
    ensures b + "." + (c + "." + (d + post)) == b + ['.'] + (c + "." + (d + post))
    ensures c + "." + (d + post) == c + ['.'] + (d + post)
  {
    assert c + "." + d + post == c + "." + (d + post);
    assert b + "." + (c + "." + d) + post == b + "." + (c + "." + d + post);
    assert a + "." + (b + "." + (c + "." + d)) + post == a + "." + (b + "." + (c + "." + d) + post);
  }

  lemma ValueOfFour(b: seq<Byte>)
    requires |b| == 4
    ensures Value(b) == (((b[0] as int) * 256 + b[1]) * 256 + b[2]) * 256 + b[3]
  {
    assert b[..3][..2] == b[..2] && b[..2][..1] == b[..1] && b[..1][..0] == [];
    assert Value(b[..1]) == b[0];
    assert Value(b[..2]) == Value(b[..1]) * 256 + b[1];
    assert Value(b[..3]) == Value(b[..2]) * 256 + b[2];
  }

  /** No other address of the block is below the network address in any outer byte. */
  lemma NetworkIsLeast(net: seq<Byte>, ip: seq<Byte>)
    requires |net| == |ip| == 4 && Value(net) <= Value(ip)
    requires ip[0] <= net[0] && ip[1] == net[1] && ip[2] == net[2] && ip[3] <= net[3]
    ensures ip == net
  {
    ValueOfFour(net);
    ValueOfFour(ip);
  }

  /** Among the addresses of a block, the text test holds of the network address only. */
  lemma TextTestIsNetwork(addr: seq<Byte>, prefix: nat, ip: seq<Byte>)
    requires |addr| == |ip| == 4 && Matches(Mask(addr, prefix), ip, prefix)
    ensures Contains(BlockText(Mask(addr, prefix), prefix), Dotted(ip)) <==> ip == Mask(addr, prefix)
  {
    var net := Mask(addr, prefix);
    var text := BlockText(net, prefix);
    if ip == net {
      assert OccursAt(text, Dotted(ip), 0);
    } else if Contains(text, Dotted(ip)) {
      var i: nat :| i <= |text| && OccursAt(text, Dotted(ip), i);
      OccurrenceBytes(net, prefix, ip, i);
      BlockIsRange(addr, ip, prefix);
      NetworkIsLeast(net, ip);
    }
  }

  // ----- what the text says -----

  lemma SplitNext(head: string, tail: string, parts: seq<string>)
    requires '.' !in head && Split(tail, '.') == parts
    ensures Split(head + "." + tail, '.') == [head] + parts
  {
    SplitHead(head, tail, '.');
  }

  lemma SplitTwo(c: string, e: string)
    requires '.' !in c && '.' !in e
    ensures Split(c + "." + e, '.') == [c, e]
  {
    SplitNext(c, e, [e]);
  }

  lemma SplitFour(a: string, b: string, c: string, e: string)
    requires '.' !in a && '.' !in b && '.' !in c && '.' !in e
    ensures Split(a + "." + (b + "." + (c + "." + e)), '.') == [a, b, c, e]
  {
    var last := c + "." + e;
    SplitTwo(c, e);
    SplitTwoMore(a, b, last, [c, e]);
  }

  lemma SplitTwoMore(a: string, b: string, tail: string, parts: seq<string>)
    requires '.' !in a && '.' !in b && Split(tail, '.') == parts
    ensures Split(a + "." + (b + "." + tail), '.') == [a] + ([b] + parts)
  {
    SplitNext(b, tail, parts);
    SplitNext(a, b + "." + tail, [b] + parts);
  }

  /** The text of an address has four parts, the bytes in order, in decimal. */
  lemma DottedParts(ip: seq<Byte>)
    requires |ip| == 4
    ensures |Split(Dotted(ip), '.')| == 4
    ensures forall k | 0 <= k < 4 :: Atoi(Split(Dotted(ip), '.')[k]) == ip[k]
  {
    var parts := [Itoa(ip[0]), Itoa(ip[1]), Itoa(ip[2]), Itoa(ip[3])];
    SplitFour(parts[0], parts[1], parts[2], parts[3]);
    forall k | 0 <= k < 4 ensures Atoi(parts[k]) == ip[k] {
      AtoiItoa(ip[k]);
    }
  }
}
