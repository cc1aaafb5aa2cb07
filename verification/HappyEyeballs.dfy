/**
 The list of addresses that Happy Eyeballs builds (section 4 of RFC 8305). The source walks this list
 when it connects, but connects to the host name each time; what it tries is not modelled.
 */
module HappyEyeballs {
  import opened Dns

  function Family(addresses: seq<Address>, v4: bool): seq<Address> {
    if addresses == [] then []
    else if addresses[0].V4? == v4 then [addresses[0]] + Family(addresses[1..], v4)
    else Family(addresses[1..], v4)
  }

  /** One of each in turn; when one side runs out, the rest of the other. */
  function Interleaved(a: seq<Address>, b: seq<Address>): seq<Address>
    decreases |a|
  {
    if a == [] then b else if b == [] then a else [a[0]] + ([b[0]] + Interleaved(a[1..], b[1..]))
  }

  function ConnectOrder(addresses: seq<Address>, preferIpv6: bool): seq<Address> {
    Interleaved(Family(addresses, !preferIpv6), Family(addresses, preferIpv6))
  }

  method OrderAddresses(addresses: seq<Address>, preferIpv6: bool) returns (interleaved: seq<Address>)
    ensures interleaved == ConnectOrder(addresses, preferIpv6)
  {
    var ipv4, ipv6 := Separate(addresses);
    interleaved := Interleave(ipv4, ipv6, preferIpv6);
  }

  method Separate(addresses: seq<Address>) returns (ipv4: seq<Address>, ipv6: seq<Address>)
    ensures ipv4 == Family(addresses, true) && ipv6 == Family(addresses, false)
  {
    ipv4, ipv6 := [], [];
    for i := 0 to |addresses|
      invariant Family(addresses, true) == ipv4 + Family(addresses[i..], true)
      invariant Family(addresses, false) == ipv6 + Family(addresses[i..], false)
    {
      assert addresses[i..][1..] == addresses[i + 1..];
      if addresses[i].V4? { ipv4 := ipv4 + [addresses[i]]; } else { ipv6 := ipv6 + [addresses[i]]; }
    }
    assert ipv4 + [] == ipv4 && ipv6 + [] == ipv6;
  }

  method Interleave(ipv4: seq<Address>, ipv6: seq<Address>, preferIpv6: bool) returns (interleaved: seq<Address>)
    ensures interleaved == if preferIpv6 then Interleaved(ipv6, ipv4) else Interleaved(ipv4, ipv6)
  {
    var maxLen := if |ipv4| > |ipv6| then |ipv4| else |ipv6|;
    interleaved := [];
    ghost var first, second := if preferIpv6 then ipv6 else ipv4, if preferIpv6 then ipv4 else ipv6;
    ghost var goal := Interleaved(first, second);
    for i := 0 to maxLen
      invariant goal == interleaved + Interleaved(Rest(first, i), Rest(second, i))
    {
      InterleavedStep(first, second, i, interleaved);
      interleaved := PushBoth(interleaved, ipv4, ipv6, i, preferIpv6);
    }
    assert interleaved + [] == interleaved;
  }

  /** One turn of the loop. */
  method PushBoth(addresses: seq<Address>, ipv4: seq<Address>, ipv6: seq<Address>, i: nat, preferIpv6: bool)
    returns (r: seq<Address>)
    ensures r == if preferIpv6 then addresses + At(ipv6, i) + At(ipv4, i) else addresses + At(ipv4, i) + At(ipv6, i)
  {
    if preferIpv6 {
      r := Push(addresses, ipv6, i);
      r := Push(r, ipv4, i);
    } else {
      r := Push(addresses, ipv4, i);
      r := Push(r, ipv6, i);
    }
  }

  function Rest(s: seq<Address>, i: nat): seq<Address> { if i <= |s| then s[i..] else [] }

  function At(s: seq<Address>, i: nat): seq<Address> { if i < |s| then [s[i]] else [] }

  /** Appends the address at `i`, if there is one. */
  method Push(addresses: seq<Address>, from: seq<Address>, i: nat) returns (r: seq<Address>)
    ensures r == addresses + At(from, i)
  {
    r := addresses;
    if i < |from| { r := r + [from[i]]; }
  }

  lemma RestStep(s: seq<Address>, i: nat)
    ensures Rest(s, i) == At(s, i) + Rest(s, i + 1)
    ensures i < |s| ==> Rest(s, i)[0] == s[i] && Rest(s, i)[1..] == Rest(s, i + 1)
  {
  }

  lemma InterleavedHeads(a: seq<Address>, b: seq<Address>, i: nat)
    ensures Interleaved(Rest(a, i), Rest(b, i))
      == At(a, i) + (At(b, i) + Interleaved(Rest(a, i + 1), Rest(b, i + 1)))
  {
    RestStep(a, i);
    RestStep(b, i);
    if i >= |a| {
      assert [] + Rest(b, i) == Rest(b, i);
    } else if i >= |b| {
      assert [] + Rest(a, i + 1) == Rest(a, i + 1) && Interleaved(Rest(a, i + 1), []) == Rest(a, i + 1);
    }
  }

  lemma InterleavedStep(a: seq<Address>, b: seq<Address>, i: nat, before: seq<Address>)
    ensures before + Interleaved(Rest(a, i), Rest(b, i))
      == before + At(a, i) + At(b, i) + Interleaved(Rest(a, i + 1), Rest(b, i + 1))
  {
    InterleavedHeads(a, b, i);
    Regroup(before, At(a, i), At(b, i), Interleaved(Rest(a, i + 1), Rest(b, i + 1)));
  }

  lemma Regroup(w: seq<Address>, x: seq<Address>, y: seq<Address>, z: seq<Address>)
    ensures w + (x + (y + z)) == w + x + y + z
  {
  }

  // ----- what the order keeps -----

  lemma {:induction false} FamiliesPartition(addresses: seq<Address>)
    ensures multiset(Family(addresses, true)) + multiset(Family(addresses, false)) == multiset(addresses)
  {
    if addresses != [] {
      FamiliesPartition(addresses[1..]);
      assert addresses == [addresses[0]] + addresses[1..];
    }
  }

  lemma {:induction false} FamilyIsUniform(addresses: seq<Address>, v4: bool)
    ensures forall i :: 0 <= i < |Family(addresses, v4)| ==> Family(addresses, v4)[i].V4? == v4
  {
    if addresses != [] { FamilyIsUniform(addresses[1..], v4); }
  }

  lemma {:induction false} FamilyOfUniform(a: seq<Address>, v4: bool)
    requires forall i :: 0 <= i < |a| ==> a[i].V4? == v4
    ensures Family(a, v4) == a && Family(a, !v4) == []
  {
    if a != [] {
      FamilyOfUniform(a[1..], v4);
      assert a == [a[0]] + a[1..];
    }
  }

  lemma {:induction false} InterleavedPermutes(a: seq<Address>, b: seq<Address>)
    ensures multiset(Interleaved(a, b)) == multiset(a) + multiset(b)
    decreases |a|
  {
    if a != [] && b != [] {
      InterleavedPermutes(a[1..], b[1..]);
      assert a == [a[0]] + a[1..] && b == [b[0]] + b[1..];
    }
  }

  lemma {:induction false} InterleavedKeepsOrder(a: seq<Address>, b: seq<Address>, v4: bool)
    requires forall i :: 0 <= i < |a| ==> a[i].V4? == v4
    requires forall i :: 0 <= i < |b| ==> b[i].V4? == !v4
    ensures Family(Interleaved(a, b), v4) == a && Family(Interleaved(a, b), !v4) == b
    decreases |a|
  {
    if a == [] {
      FamilyOfUniform(b, !v4);
    } else if b == [] {
      FamilyOfUniform(a, v4);
    } else {
      var rest := Interleaved(a[1..], b[1..]);
      InterleavedKeepsOrder(a[1..], b[1..], v4);
      FamilyOfTwo(a[0], b[0], rest, v4);
      assert a == [a[0]] + a[1..] && b == [b[0]] + b[1..];
    }
  }

  lemma FamilyOfTwo(x: Address, y: Address, rest: seq<Address>, v4: bool)
    requires x.V4? == v4 && y.V4? == !v4
    ensures Family([x] + ([y] + rest), v4) == [x] + Family(rest, v4)
    ensures Family([x] + ([y] + rest), !v4) == [y] + Family(rest, !v4)
  {
    assert ([x] + ([y] + rest))[1..] == [y] + rest && ([y] + rest)[1..] == rest;
  }

  function Shorter(m: nat, n: nat): nat { if m < n then m else n }

  lemma {:induction false} InterleavedAlternates(a: seq<Address>, b: seq<Address>, v4: bool)
    requires forall i :: 0 <= i < |a| ==> a[i].V4? == v4
    requires forall i :: 0 <= i < |b| ==> b[i].V4? == !v4
    ensures |Interleaved(a, b)| == |a| + |b|
    ensures forall i :: 0 <= i < 2 * Shorter(|a|, |b|) ==> (Interleaved(a, b)[i].V4? <==> (v4 <==> i % 2 == 0))
    decreases |a|
  {
    if a != [] && b != [] {
      var rest, r := Interleaved(a[1..], b[1..]), Interleaved(a, b);
      InterleavedAlternates(a[1..], b[1..], v4);
      forall i | 0 <= i < 2 * Shorter(|a|, |b|) ensures r[i].V4? <==> (v4 <==> i % 2 == 0) {
        if i >= 2 { assert r[i] == rest[i - 2]; }
      }
    }
  }

  lemma OrderPermutes(addresses: seq<Address>, preferIpv6: bool)
    ensures multiset(ConnectOrder(addresses, preferIpv6)) == multiset(addresses)
  {
    FamiliesPartition(addresses);
    InterleavedPermutes(Family(addresses, !preferIpv6), Family(addresses, preferIpv6));
  }

  lemma OrderKeepsFamilies(addresses: seq<Address>, preferIpv6: bool)
    ensures var r := ConnectOrder(addresses, preferIpv6);
      Family(r, true) == Family(addresses, true) && Family(r, false) == Family(addresses, false)
  {
    FamilyIsUniform(addresses, true);
    FamilyIsUniform(addresses, false);
    InterleavedKeepsOrder(Family(addresses, !preferIpv6), Family(addresses, preferIpv6), !preferIpv6);
  }

  lemma OrderAlternates(addresses: seq<Address>, preferIpv6: bool)
    ensures var r := ConnectOrder(addresses, preferIpv6);
      && |r| == |Family(addresses, true)| + |Family(addresses, false)|
      && forall i :: 0 <= i < 2 * Shorter(|Family(addresses, true)|, |Family(addresses, false)|) ==>
           (r[i].V6? <==> (preferIpv6 <==> i % 2 == 0))
  {
    FamilyIsUniform(addresses, true);
    FamilyIsUniform(addresses, false);
    InterleavedAlternates(Family(addresses, !preferIpv6), Family(addresses, preferIpv6), !preferIpv6);
  }

  /** The list holds every address once, each family in its own order, alternating while it can. */
  lemma ConnectOrderIsFair(addresses: seq<Address>, preferIpv6: bool)
    ensures var r := ConnectOrder(addresses, preferIpv6);
      && multiset(r) == multiset(addresses)
      && Family(r, true) == Family(addresses, true) && Family(r, false) == Family(addresses, false)
      && |r| == |Family(addresses, true)| + |Family(addresses, false)|
      && forall i :: 0 <= i < 2 * Shorter(|Family(addresses, true)|, |Family(addresses, false)|) ==>
           (r[i].V6? <==> (preferIpv6 <==> i % 2 == 0))
  {
    OrderPermutes(addresses, preferIpv6);
    OrderKeepsFamilies(addresses, preferIpv6);
    OrderAlternates(addresses, preferIpv6);
  }
}
