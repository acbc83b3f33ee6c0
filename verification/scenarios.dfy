/** End-to-end behaviour of `Validate` on small families of DNS data: a
    domain whose policy includes another domain's `ip4` block.
 */
module Scenarios {
  import opened Outcomes
  import opened Text
  import opened Dns
  import opened SpfRecord
  import opened Expansion
  import opened NetAddr
  import opened MembershipCheck
  import opened SpfChecker

  /** The text of an IPv4 block: dotted quad, `/`, decimal prefix length. */
  function BlockText(a: Bytes, p: nat): (t: string)
    requires |a| == 4 && p <= 32
    ensures ' ' !in t && !Occurs(Ip4Prefix, t)
  {
    var t := FormatIpv4(a) + "/" + OctetText(p);
    assert 'i' !in t && ' ' !in t by {
      FormatThenParseIpv4(a);
      OctetTextParses(p);
    }
    FirstCharAbsent(Ip4Prefix, t);
    t
  }

  /** One block as the whole list of specifications decides exactly whether
      the sender, written as a dotted quad, lies in the block. */
  lemma SingleBlockMembership(v6: Ipv6Parser, a: Bytes, p: nat, ip: Bytes)
    requires |a| == 4 && |ip| == 4 && p <= 32
    ensures Membership(v6, FormatIpv4(ip), [BlockText(a, p)]) == Ok(Contains(Block(a, p), Some(ip)))
  {
    FormatThenParseIpv4(a);
    FormatThenParseIpv4(ip);
    OctetTextParses(p);
    Ipv4BlockSpec(v6, FormatIpv4(ip), FormatIpv4(a), OctetText(p));
    var verdict := SpecVerdict(v6, FormatIpv4(ip), BlockText(a, p));
    if verdict != Ok(false) {
      assert FirstDecisive(v6, FormatIpv4(ip), [BlockText(a, p)], 0);
    }
  }

  /** `domain` publishes `v=spf1 include:target` and `target` publishes
      `v=spf1 ip4:<block>`: with nothing cached, the sender is allowed exactly
      when the block holds it, and `domain`'s record is cached. */
  lemma IncludedBlockDecides(c: Checker, dns: Resolver, v6: Ipv6Parser, domain: string, target: string,
                             a: Bytes, p: nat, ip: Bytes, fuel: nat)
    requires Usable(c) && domain !in c.cache
    requires ' ' !in target && !Occurs(IncludePrefix, target)
    requires |a| == 4 && |ip| == 4 && p <= 32
    requires LookupTxt(dns, domain) == Ok([Version + " " + IncludePrefix + target])
    requires LookupTxt(dns, target) == Ok([Version + " " + Ip4Prefix + BlockText(a, p)])
    ensures Validate(c, dns, v6, FormatIpv4(ip), domain, fuel + 1)
         == Step(Checker(c.cache[domain := [Version + " " + IncludePrefix + target]]),
                 Finished(Ok(Contains(Block(a, p), Some(ip)))))
  {
    var outer := Version + " " + IncludePrefix + target;
    var inner := Version + " " + Ip4Prefix + BlockText(a, p);
    assert HasPrefix(outer, Version) by {
      assert outer[..|Version|] == Version;
    }
    assert HasPrefix(inner, Version) by {
      assert inner[..|Version|] == Version;
    }
    assert UniqueSpfAt([outer], 0);
    assert LookupSpfRecords(c, dns, domain) == Step(Checker(c.cache[domain := [outer]]), Ok([outer]));
    Ip4TermPolicy(dns, target, BlockText(a, p), fuel);
    IncludeTermPolicy(dns, domain, target, inner, fuel);
    SingleBlockMembership(v6, a, p, ip);
  }
}
