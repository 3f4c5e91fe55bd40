/** CIDR matching, in the rate limiter and in the IP filter. */
module Cidr {
  import opened Bitwise
  import opened Collections

  datatype Ip = V4(bits: nat) | V6(bits: nat)

  function Width(ip: Ip): nat {
    if ip.V4? then 32 else 128
  }

  predicate IsAddress(ip: Ip) {
    ip.bits < Pow2(Width(ip))
  }

  datatype CidrEntry = CidrEntry(network: Ip, prefix: nat)

  /** What parsing accepts: a prefix no longer than the address. */
  predicate IsEntry(c: CidrEntry) {
    IsAddress(c.network) && c.prefix <= Width(c.network)
  }

  /** `(!0) << (width - prefix)`, truncated to the width. */
  function Mask(width: nat, prefix: nat): nat
    requires prefix <= width
  {
    Low(Shl(Ones(width), width - prefix), width)
  }

  predicate Contains(c: CidrEntry, ip: Ip)
    requires c.prefix <= Width(c.network)
  {
    && c.network.V4? == ip.V4?
    && var w := Width(ip);
       c.prefix == 0 || And(c.network.bits, Mask(w, c.prefix), w) == And(ip.bits, Mask(w, c.prefix), w)
  }

  /** For every prefix, 0 included: an address matches exactly if its leading `prefix` bits are the network's. */
  lemma ContainsIffSamePrefix(c: CidrEntry, ip: Ip)
    requires IsEntry(c) && IsAddress(ip)
    ensures Contains(c, ip) <==>
            c.network.V4? == ip.V4? &&
            c.network.bits / Pow2(Width(ip) - c.prefix) == ip.bits / Pow2(Width(ip) - c.prefix)
  {
    if c.network.V4? == ip.V4? {
      var w := Width(ip);
      var k := w - c.prefix;
      MaskedAlikeIff(c.network.bits, ip.bits, w, c.prefix);
      if c.prefix == 0 {
        BelowIsNothing(c.network.bits, Pow2(w));
        BelowIsNothing(ip.bits, Pow2(w));
      }
    }
  }

  lemma MaskedAlikeIff(x: nat, y: nat, width: nat, prefix: nat)
    requires x < Pow2(width) && y < Pow2(width) && prefix <= width
    ensures And(x, Mask(width, prefix), width) == And(y, Mask(width, prefix), width) <==>
            x / Pow2(width - prefix) == y / Pow2(width - prefix)
  {
    var k := width - prefix;
    OnesAreOnes(width);
    AndMask(x, Ones(width), width, k);
    AndMask(y, Ones(width), width, k);
    ShlInjective(Shr(x, k), Shr(y, k), k);
    ShrIsQuotient(x, k);
    ShrIsQuotient(y, k);
  }

  lemma BelowIsNothing(x: nat, p: nat)
    requires x < p
    ensures x / p == 0
  {
  }

  // ----- the IPv4 matcher of the IP filter

  /** `width - prefix` as the shift of a word: a release build takes it modulo the width. */
  function FilterShift(width: nat, prefix: nat): nat
    requires prefix < width
  {
    if prefix == 0 then 0 else width - prefix
  }

  /** `!((1 << (width - prefix)) - 1)`. */
  function FilterMask(width: nat, prefix: nat): nat {
    if prefix >= width then Ones(width)
    else
      Pow2Grows(FilterShift(width, prefix), width);
      Ones(width) - (Pow2(FilterShift(width, prefix)) - 1)
  }

  predicate FilterMatches(network: nat, prefix: nat, address: nat, width: nat) {
    And(network, FilterMask(width, prefix), width) == And(address, FilterMask(width, prefix), width)
  }

  /**
   The two IPv4 matchers agree on every prefix that the limiter accepts, except 0: there the limiter takes every
   address and the filter, whose shift wraps, only the network's own.
   */
  lemma MatchersAgreeIff(network: nat, prefix: nat, address: nat)
    requires network < Pow2(32) && address < Pow2(32) && prefix <= 32
    ensures FilterMatches(network, prefix, address, 32) == Contains(CidrEntry(V4(network), prefix), V4(address))
            <==> prefix > 0 || network == address
  {
    if prefix == 0 {
      FullMaskIsEquality(network, prefix, address, 32);
    } else {
      MasksAgree(32, prefix);
    }
  }

  /** Prefix 0 and every prefix from the width on mean the network's own address. */
  lemma FullMaskIsEquality(network: nat, prefix: nat, address: nat, width: nat)
    requires network < Pow2(width) && address < Pow2(width) && (prefix == 0 || prefix >= width)
    ensures FilterMatches(network, prefix, address, width) <==> network == address
  {
    FullMask(network, width);
    FullMask(address, width);
    assert FilterMask(width, prefix) == Ones(width);
  }

  lemma FullMask(x: nat, width: nat)
    requires x < Pow2(width)
    ensures And(x, Ones(width), width) == x
  {
    OnesAreOnes(width);
    LowOfOnes(Ones(width), width);
    AndOnes(x, Ones(width), width);
  }

  lemma MasksAgree(width: nat, prefix: nat)
    requires 1 <= prefix <= width
    ensures Mask(width, prefix) == FilterMask(width, prefix)
  {
    OnesAreOnes(width);
    MaskValue(Ones(width), width, width - prefix);
  }
}
