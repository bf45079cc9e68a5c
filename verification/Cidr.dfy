/** Address blocks (section 3.1 of RFC 4632), and the gateway's two tests for membership. */
module Cidr {
  import opened Wrappers

  function Shr(bits: nat, k: nat): nat {
    if k == 0 then bits else Shr(bits, k - 1) / 2
  }

  function Shl(bits: nat, k: nat): nat {
    if k == 0 then bits else 2 * Shl(bits, k - 1)
  }

  datatype Ip = V4(bits: nat) | V6(bits: nat)

  function Width(ip: Ip): nat {
    if ip.V4? then 32 else 128
  }

  predicate SameFamily(a: Ip, b: Ip) {
    a.V4? <==> b.V4?
  }

  predicate ValidIp(ip: Ip) {
    Shr(ip.bits, Width(ip)) == 0
  }

  /** bits & (all ones << k). */
  function MaskLow(bits: nat, k: nat): nat {
    Shl(Shr(bits, k), k)
  }

  /** The stream router's test. */
  function IpInCidr(ip: Ip, network: Ip, prefixLen: nat): bool {
    if !SameFamily(ip, network) then false
    else if prefixLen == 0 then true
    else if prefixLen > Width(ip) then false
    else MaskLow(ip.bits, Width(ip) - prefixLen) == MaskLow(network.bits, Width(ip) - prefixLen)
  }

  /** The proxy's test. For length 0 it shifts by the full width: with overflow checks that panics,
      without them the shift amount wraps to 0 and the whole addresses are compared. */
  datatype Answer = Answer(contains: bool) | ShiftOverflow

  function CidrContains(checked: bool, network: Ip, prefixLen: nat, client: Ip): Answer {
    if !SameFamily(network, client) then Answer(false)
    else if prefixLen >= Width(network) then Answer(network.bits == client.bits)
    else if prefixLen == 0 then (if checked then ShiftOverflow else Answer(network.bits == client.bits))
    else Answer(MaskLow(network.bits, Width(network) - prefixLen) == MaskLow(client.bits, Width(network) - prefixLen))
  }

  /** Bit i, counted from the most significant of width bits. */
  function Bit(bits: nat, width: nat, i: nat): nat
    requires i < width
  {
    Shr(bits, width - 1 - i) % 2
  }

  /** The leading n bits agree. */
  ghost predicate AgreeOn(a: Ip, b: Ip, n: nat)
    requires SameFamily(a, b) && n <= Width(a)
  {
    forall i :: 0 <= i < n ==> Bit(a.bits, Width(a), i) == Bit(b.bits, Width(a), i)
  }

  lemma {:induction false} ShlInjective(a: nat, b: nat, k: nat)
    ensures Shl(a, k) == Shl(b, k) <==> a == b
  {
    if k > 0 {
      ShlInjective(a, b, k - 1);
    }
  }

  /** Equal quotients mean equal leading bits. */
  lemma {:induction false} QuotientsAgree(a: Ip, b: Ip, n: nat)
    requires SameFamily(a, b) && n <= Width(a) && ValidIp(a) && ValidIp(b)
    ensures AgreeOn(a, b, n) <==> Shr(a.bits, Width(a) - n) == Shr(b.bits, Width(a) - n)
  {
    if n > 0 {
      QuotientsAgree(a, b, n - 1);
      var w := Width(a);
      var x, y := Shr(a.bits, w - n), Shr(b.bits, w - n);
      assert Shr(a.bits, w - n + 1) == x / 2 && Shr(b.bits, w - n + 1) == y / 2;
      assert Bit(a.bits, w, n - 1) == x % 2 && Bit(b.bits, w, n - 1) == y % 2;
    }
  }

  /** An address is in a block exactly when it is of the block's family, the length fits the family,
      and the two agree on that many leading bits. */
  lemma InCidrExactlyWhen(ip: Ip, network: Ip, prefixLen: nat)
    requires ValidIp(ip) && ValidIp(network)
    ensures IpInCidr(ip, network, prefixLen) <==>
            SameFamily(ip, network) && prefixLen <= (if network.V4? then 32 else 128) && AgreeOn(ip, network, prefixLen)
  {
    if SameFamily(ip, network) && prefixLen <= Width(ip) {
      QuotientsAgree(ip, network, prefixLen);
      var k := Width(ip) - prefixLen;
      ShlInjective(Shr(ip.bits, k), Shr(network.bits, k), k);
    }
  }

  /** Two blocks of one family are nested or disjoint: an address in both puts the one with the
      longer prefix inside the other. */
  lemma NestedOrDisjoint(n1: Ip, p1: nat, n2: Ip, p2: nat, common: Ip, other: Ip)
    requires ValidIp(n1) && ValidIp(n2) && ValidIp(common) && ValidIp(other) && p1 <= p2
    requires IpInCidr(common, n1, p1) && IpInCidr(common, n2, p2)
    requires IpInCidr(other, n2, p2)
    ensures IpInCidr(other, n1, p1)
  {
    InCidrExactlyWhen(common, n1, p1);
    InCidrExactlyWhen(common, n2, p2);
    InCidrExactlyWhen(other, n2, p2);
    InCidrExactlyWhen(other, n1, p1);
    assert forall i :: 0 <= i < p1 ==>
      Bit(other.bits, Width(other), i) == Bit(n2.bits, Width(other), i) == Bit(common.bits, Width(other), i) == Bit(n1.bits, Width(other), i);
  }

  /** The proxy's test and the router's agree for lengths from 1 to the width and across families;
      beyond the width only if the addresses differ; and for length 0 only if they are equal and
      overflow is not checked, as in release builds. */
  lemma TestsAgreeExactlyWhen(checked: bool, ip: Ip, network: Ip, prefixLen: nat)
    ensures CidrContains(checked, network, prefixLen, ip) == Answer(IpInCidr(ip, network, prefixLen)) <==>
              || !SameFamily(ip, network) || 1 <= prefixLen <= Width(ip)
              || (prefixLen > Width(ip) && ip.bits != network.bits)
              || (prefixLen == 0 && !checked && ip.bits == network.bits)
  {
  }
}
