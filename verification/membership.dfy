/** The membership loop at the end of `Validate`: each network specification,
    in order, is given an explicit prefix length when it has none, parsed as a
    CIDR block and compared with the sender address. The first block that
    holds the address allows it; a specification that does not parse before
    any match aborts with the parse error; otherwise the address is not allowed.
 */
module MembershipCheck {
  import opened Outcomes
  import opened NetAddr

  /** A specification without `/` is a single host: `/32` when it holds no `:`
      (taken for IPv4), `/128` otherwise (taken for IPv6). */
  function WithPrefixLength(spec: string): (s: string)
    ensures '/' in s
    ensures '/' in spec ==> s == spec
    ensures '/' !in spec && ':' !in spec ==> s == spec + "/32"
    ensures '/' !in spec && ':' in spec ==> s == spec + "/128"
  {
    if '/' in spec then spec
    else if ':' !in spec then
      assert (spec + "/32")[|spec|] == '/';
      spec + "/32"
    else
      assert (spec + "/128")[|spec|] == '/';
      spec + "/128"
  }

  /** What one specification decides on its own: `Ok(true)` when its block
      holds the address, `Ok(false)` when it does not, an error when it does
      not parse. */
  function SpecVerdict(v6: Ipv6Parser, ip: string, spec: string): (r: Result<bool>)
    ensures r.Err? ==> r.error == CidrSyntax(WithPrefixLength(spec))
    ensures r == Ok(true) ==> ParseIp(v6, ip).Some?
  {
    match ParseCidr(v6, WithPrefixLength(spec))
    case Err(e) => Err(e)
    case Ok(block) => Ok(Contains(block, ParseIp(v6, ip)))
  }

  /** Position `i` is the first specification that decides anything. */
  ghost predicate FirstDecisive(v6: Ipv6Parser, ip: string, specs: seq<string>, i: int) {
    && 0 <= i < |specs|
    && SpecVerdict(v6, ip, specs[i]) != Ok(false)
    && forall j :: 0 <= j < i ==> SpecVerdict(v6, ip, specs[j]) == Ok(false)
  }

  /** The loop over the specifications: first match wins, a malformed
      specification met before any match is an error, no match is `false`. */
  function Membership(v6: Ipv6Parser, ip: string, specs: seq<string>): (r: Result<bool>)
    ensures r == Ok(false) <==> forall i :: 0 <= i < |specs| ==> SpecVerdict(v6, ip, specs[i]) == Ok(false)
    ensures forall i :: FirstDecisive(v6, ip, specs, i) ==> r == SpecVerdict(v6, ip, specs[i])
    ensures r != Ok(false) ==> exists i :: FirstDecisive(v6, ip, specs, i)
  {
    if |specs| == 0 then Ok(false)
    else
      var here := SpecVerdict(v6, ip, specs[0]);
      if here != Ok(false) then
        DecisiveHead(v6, ip, specs);
        here
      else
        var rest := Membership(v6, ip, specs[1..]);
        DecisiveTail(v6, ip, specs);
        assert rest != Ok(false) ==> exists i :: FirstDecisive(v6, ip, specs, i) by {
          if rest != Ok(false) {
            var i :| FirstDecisive(v6, ip, specs[1..], i);
            assert FirstDecisive(v6, ip, specs, i + 1);
          }
        }
        rest
  }

  lemma DecisiveHead(v6: Ipv6Parser, ip: string, specs: seq<string>)
    requires |specs| > 0 && SpecVerdict(v6, ip, specs[0]) != Ok(false)
    ensures FirstDecisive(v6, ip, specs, 0)
    ensures forall i :: FirstDecisive(v6, ip, specs, i) ==> i == 0
  {
  }

  lemma DecisiveTail(v6: Ipv6Parser, ip: string, specs: seq<string>)
    requires |specs| > 0 && SpecVerdict(v6, ip, specs[0]) == Ok(false)
    ensures forall i :: FirstDecisive(v6, ip, specs, i) <==> i > 0 && FirstDecisive(v6, ip, specs[1..], i - 1)
    ensures (forall i :: 0 <= i < |specs| ==> SpecVerdict(v6, ip, specs[i]) == Ok(false))
        <==> (forall i :: 0 <= i < |specs[1..]| ==> SpecVerdict(v6, ip, specs[1..][i]) == Ok(false))
  {
    var rest := specs[1..];
    forall i ensures FirstDecisive(v6, ip, specs, i) <==> i > 0 && FirstDecisive(v6, ip, rest, i - 1) {
      DecisiveShift(v6, ip, specs, i);
    }
    assert forall i :: 0 < i < |specs| ==> specs[i] == rest[i - 1];
  }

  lemma DecisiveShift(v6: Ipv6Parser, ip: string, specs: seq<string>, i: int)
    requires |specs| > 0 && SpecVerdict(v6, ip, specs[0]) == Ok(false)
    ensures FirstDecisive(v6, ip, specs, i) <==> i > 0 && FirstDecisive(v6, ip, specs[1..], i - 1)
  {
    var rest := specs[1..];
    if 0 < i < |specs| {
      assert specs[i] == rest[i - 1];
      assert forall j :: 0 < j < i ==> specs[j] == rest[j - 1];
      assert forall j :: 0 <= j < i - 1 ==> rest[j] == specs[j + 1];
    }
  }

  /** Specifications are tried in order: the verdict on `xs + ys` is the
      verdict on `xs` unless `xs` holds no match and no error. */
  lemma {:induction false} MembershipAppend(v6: Ipv6Parser, ip: string, xs: seq<string>, ys: seq<string>)
    ensures Membership(v6, ip, xs + ys)
         == if Membership(v6, ip, xs) == Ok(false) then Membership(v6, ip, ys) else Membership(v6, ip, xs)
    decreases |xs|
  {
    if |xs| == 0 {
      assert xs + ys == ys;
    } else {
      assert (xs + ys)[0] == xs[0];
      assert (xs + ys)[1..] == xs[1..] + ys;
      MembershipAppend(v6, ip, xs[1..], ys);
    }
  }

  /** A bare dotted-quad specification, as `ip4:` or `a` produces it, holds
      exactly the address it spells. */
  lemma BareIpv4IsSingleHost(v6: Ipv6Parser, ip: string, spec: string)
    requires ParseIpv4(spec).Some?
    ensures SpecVerdict(v6, ip, spec) == Ok(ParseIp(v6, ip) == ParseIpv4(spec))
  {
    var a := ParseIpv4(spec).value;
    assert '/' !in spec && ':' !in spec;
    assert "32"[..1] == "3" && "3"[..0] == "";
    assert AllDigits("32") && DecimalValue("32") == 32;
    ParseIpv4Cidr(v6, spec, "32");
    assert spec + "/" + "32" == spec + "/32";
    assert NetworkOf(a, 32) == Block(a, 32);
    FullPrefixHoldsOnlyItself(a, ParseIp(v6, ip));
  }

  /** A dotted-quad specification with an explicit prefix length holds the
      addresses that share that many leading bits with it. */
  lemma Ipv4BlockSpec(v6: Ipv6Parser, ip: string, t: string, p: string)
    requires ParseIpv4(t).Some?
    requires |p| > 0 && AllDigits(p) && DecimalValue(p) <= 32
    ensures SpecVerdict(v6, ip, t + "/" + p)
         == Ok(Contains(Block(ParseIpv4(t).value, DecimalValue(p)), ParseIp(v6, ip)))
  {
    var spec := t + "/" + p;
    assert spec[|t|] == '/';
    ParseIpv4Cidr(v6, t, p);
  }
}
