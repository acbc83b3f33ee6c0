/** Expanding an SPF policy into the flat list of network specifications that
    `Validate` tests (`getIPsForRecord` and `parseOtherRecord`).

    The policy is split on single spaces and each token is handled in order:
    - a token that is a prefix of `v=spf1` (the empty token included) adds nothing;
    - a token starting with `ip4` adds itself with every `ip4:` deleted;
    - a token starting with `include` names a domain (the token with every
      `include:` deleted) whose one SPF policy is expanded in its place, with that
      domain as the current domain; lookup and selection errors abort, but an
      error inside the nested expansion only makes the include add nothing;
    - a token equal to `a` or `mx` ignoring case adds the addresses of the
      current domain, or of its MX hosts; the kind is then matched case-sensitively,
      so `A` or `MX` fail with `UnknownRecord`;
    - any other token adds nothing.
    The `include` recursion has no bound in the Go code; each nested expansion
    here spends one unit of fuel, and `OutOfFuel` marks a run the Go code
    would not have finished.
 */
module Expansion {
  import opened Outcomes
  import opened Text
  import opened Dns
  import opened SpfRecord

  // ------------------------------------------------------------ a and mx

  /** All lists of `lists`, one after the other. */
  function Concat(lists: seq<seq<string>>): seq<string>
  {
    if |lists| == 0 then [] else lists[0] + Concat(lists[1..])
  }

  /** The address list of each host, or nothing for a host whose lookup fails. */
  function HostAddressLists(dns: Resolver, hosts: seq<string>): (lists: seq<seq<string>>)
    ensures |lists| == |hosts|
  {
    seq(|hosts|, i requires 0 <= i < |hosts| => LookupIp(dns, hosts[i]).GetOr([]))
  }

  /** Host `i` is the first whose address lookup fails. */
  ghost predicate FirstFailingHost(dns: Resolver, hosts: seq<string>, i: int) {
    && 0 <= i < |hosts|
    && LookupIp(dns, hosts[i]).Err?
    && forall j :: 0 <= j < i ==> LookupIp(dns, hosts[j]).Ok?
  }

  /** The `mx` loop of `parseOtherRecord`: the `a`-expansion of every MX host,
      in MX order; the first failing host aborts with its error. */
  function MxAddresses(dns: Resolver, hosts: seq<string>): (r: Result<seq<string>>)
    ensures r.Ok? <==> forall i :: 0 <= i < |hosts| ==> LookupIp(dns, hosts[i]).Ok?
    ensures r.Ok? ==> r.value == Concat(HostAddressLists(dns, hosts))
    ensures r.Err? ==> exists i :: FirstFailingHost(dns, hosts, i) && r.error == LookupIp(dns, hosts[i]).error
  {
    if |hosts| == 0 then Ok([])
    else
      assert HostAddressLists(dns, hosts) == [LookupIp(dns, hosts[0]).GetOr([])] + HostAddressLists(dns, hosts[1..]);
      match LookupIp(dns, hosts[0])
      case Err(e) =>
        assert FirstFailingHost(dns, hosts, 0);
        Err(e)
      case Ok(ips) =>
        var rest := MxAddresses(dns, hosts[1..]);
        assert forall i :: 0 < i < |hosts| ==> hosts[i] == hosts[1..][i - 1];
        if rest.Err? then
          assert exists i :: FirstFailingHost(dns, hosts, i) && rest.error == LookupIp(dns, hosts[i]).error by {
            var i :| FirstFailingHost(dns, hosts[1..], i) && rest.error == LookupIp(dns, hosts[1..][i]).error;
            assert FirstFailingHost(dns, hosts, i + 1);
          }
          Err(rest.error)
        else
          assert forall i :: 0 <= i < |hosts[1..]| ==> LookupIp(dns, hosts[1..][i]).Ok?;
          Ok(ips + rest.value)
  }

  /** `parseOtherRecord`: `a` gives the addresses of `domain`, `mx` those of its
      MX hosts; any other spelling, `A` and `MX` included, is an error. */
  function ParseOtherRecord(dns: Resolver, domain: string, record: string): (r: Result<seq<string>>)
    ensures record != "a" && record != "mx" ==> r == Err(UnknownRecord)
    ensures record == "a" ==> r == LookupIp(dns, domain)
    ensures record == "mx" && LookupMx(dns, domain).Err? ==> r == Err(LookupMx(dns, domain).error)
    ensures record == "mx" && LookupMx(dns, domain).Ok? ==> r == MxAddresses(dns, LookupMx(dns, domain).value)
  {
    if record == "a" then LookupIp(dns, domain)
    else if record == "mx" then
      var hosts :- LookupMx(dns, domain);
      MxAddresses(dns, hosts)
    else Err(UnknownRecord)
  }

  // ------------------------------------------------------------- tokens

  const Ip4Tag: string := "ip4"
  const Ip4Prefix: string := "ip4:"
  const IncludeTag: string := "include"
  const IncludePrefix: string := "include:"

  /** Tokens the dispatch reaches only through its final "skip" branch or the
      `v=spf1` guard: neither `ip4`, `include`, `a` nor `mx`. */
  predicate IsInert(token: string) {
    !HasPrefix(token, Ip4Tag) && !HasPrefix(token, IncludeTag)
    && ToLower(token) != "a" && ToLower(token) != "mx"
  }

  /** The `v=spf1` guard only skips tokens that the dispatch would skip anyway. */
  lemma VersionFragmentIsInert(token: string)
    requires HasPrefix(Version, token)
    ensures IsInert(token)
  {
    if |token| > 0 {
      assert token[0] == 'v';
      assert ToLower(token)[0] == 'v';
    }
  }

  /** What an `include` token adds once its target's policy is expanded: that
      expansion when it succeeds, nothing when it fails (the Go code drops the
      error of the recursive call). */
  function Inlined(nested: Fueled<seq<string>>): (r: Fueled<seq<string>>)
    ensures nested.Finished? ==> r.Finished? && r.result.Ok?
    ensures nested.Finished? && nested.result.Ok? ==> r == nested
    ensures nested.Finished? && nested.result.Err? ==> r == Finished(Ok([]))
    ensures nested.OutOfFuel? ==> r.OutOfFuel?
  {
    match nested
    case OutOfFuel => OutOfFuel
    case Finished(Ok(ips)) => Finished(Ok(ips))
    case Finished(Err(_)) => Finished(Ok([]))
  }

  /** One token of the policy, handled with `domain` as the current domain. */
  function ExpandToken(dns: Resolver, domain: string, token: string, fuel: nat): (r: Fueled<seq<string>>)
    ensures IsInert(token) ==> r == Finished(Ok([]))
    ensures HasPrefix(token, Ip4Tag) ==> r == Finished(Ok([RemoveAll(token, Ip4Prefix)]))
    ensures r.OutOfFuel? ==> HasPrefix(token, IncludeTag)
    ensures token == "a" || token == "mx" ==> r == Finished(ParseOtherRecord(dns, domain, token))
    decreases fuel, 0, 0
  {
    assert token == "a" || token == "mx" ==>
      !HasPrefix(Version, token) && !HasPrefix(token, Ip4Tag) && !HasPrefix(token, IncludeTag) && ToLower(token) == token
    by {
      if token == "a" || token == "mx" {
        assert Version[0] != token[0];
        assert ToLower(token)[0] == token[0];
      }
    }
    if HasPrefix(Version, token) then
      Finished(Ok([]))
    else if HasPrefix(token, Ip4Tag) then
      Finished(Ok([RemoveAll(token, Ip4Prefix)]))
    else if HasPrefix(token, IncludeTag) then
      var target := RemoveAll(token, IncludePrefix);
      match LookupTxt(dns, target)
      case Err(e) => Finished(Err(e))
      case Ok(txts) =>
        match FindSpfRecord(txts)
        case Err(e) => Finished(Err(e))
        case Ok(records) =>
          if fuel == 0 then OutOfFuel
          else Inlined(Expand(dns, target, records[0], fuel - 1))
    else if ToLower(token) == "a" || ToLower(token) == "mx" then
      match ParseOtherRecord(dns, domain, token)
      case Err(e) => Finished(Err(e))
      case Ok(ips) => Finished(Ok(ips))
    else
      Finished(Ok([]))
  }

  /** A walk that finished without error. */
  predicate Succeeded(f: Fueled<seq<string>>) {
    f.Finished? && f.result.Ok?
  }

  /** The tokens in order: their contributions concatenated, the first error
      (or exhaustion of fuel) ending the walk. */
  function ExpandTokens(dns: Resolver, domain: string, tokens: seq<string>, fuel: nat): Fueled<seq<string>>
    decreases fuel, 1, |tokens|
  {
    if |tokens| == 0 then Finished(Ok([]))
    else
      var first := ExpandToken(dns, domain, tokens[0], fuel);
      if !Succeeded(first) then first
      else
        var rest := ExpandTokens(dns, domain, tokens[1..], fuel);
        if Succeeded(rest) then Finished(Ok(first.result.value + rest.result.value))
        else rest
  }

  /** `getIPsForRecord(domain, record)`: the tokens of `record` split on single spaces. */
  function Expand(dns: Resolver, domain: string, record: string, fuel: nat): Fueled<seq<string>>
    decreases fuel, 2, 0
  {
    ExpandTokens(dns, domain, Split(record, ' '), fuel)
  }

  // ------------------------------------------------------------- lemmas

  /** Token `k` is the first that does not succeed. */
  ghost predicate FirstFailingToken(dns: Resolver, domain: string, tokens: seq<string>, fuel: nat, k: int) {
    && 0 <= k < |tokens|
    && !Succeeded(ExpandToken(dns, domain, tokens[k], fuel))
    && forall j :: 0 <= j < k ==> Succeeded(ExpandToken(dns, domain, tokens[j], fuel))
  }

  /** A walk succeeds exactly when every token does; otherwise its outcome is
      that of the first token that does not succeed. */
  lemma {:induction false} ExpandTokensOutcome(dns: Resolver, domain: string, tokens: seq<string>, fuel: nat)
    ensures Succeeded(ExpandTokens(dns, domain, tokens, fuel))
        <==> forall k :: 0 <= k < |tokens| ==> Succeeded(ExpandToken(dns, domain, tokens[k], fuel))
    ensures forall k :: FirstFailingToken(dns, domain, tokens, fuel, k) ==>
      ExpandTokens(dns, domain, tokens, fuel) == ExpandToken(dns, domain, tokens[k], fuel)
    decreases |tokens|
  {
    if |tokens| > 0 {
      ExpandTokensOutcome(dns, domain, tokens[1..], fuel);
      assert forall k :: 0 < k < |tokens| ==> tokens[k] == tokens[1..][k - 1];
      forall k | FirstFailingToken(dns, domain, tokens, fuel, k) && k > 0
        ensures FirstFailingToken(dns, domain, tokens[1..], fuel, k - 1)
      {
        assert forall j :: 0 <= j < k - 1 ==> tokens[1..][j] == tokens[j + 1];
      }
    }
  }

  /** Only an `include` token can exhaust the fuel, and only an `include`,
      `a` or `mx` token can make the expansion fail. */
  lemma ExpandOutcome(dns: Resolver, domain: string, record: string, fuel: nat)
    ensures Expand(dns, domain, record, fuel).OutOfFuel? ==>
      exists t :: t in Split(record, ' ') && HasPrefix(t, IncludeTag)
    ensures Expand(dns, domain, record, fuel).Finished? && Expand(dns, domain, record, fuel).result.Err? ==>
      exists t :: t in Split(record, ' ') && !IsInert(t) && !HasPrefix(t, Ip4Tag)
  {
    var tokens := Split(record, ' ');
    ExpandTokensOutcome(dns, domain, tokens, fuel);
    if !Succeeded(Expand(dns, domain, record, fuel)) {
      var k := FirstFailure(dns, domain, tokens, fuel);
      assert tokens[k] in tokens;
    }
  }

  /** The position of the first token that does not succeed, when there is one. */
  lemma {:induction false} FirstFailure(dns: Resolver, domain: string, tokens: seq<string>, fuel: nat) returns (k: int)
    requires exists i :: 0 <= i < |tokens| && !Succeeded(ExpandToken(dns, domain, tokens[i], fuel))
    ensures FirstFailingToken(dns, domain, tokens, fuel, k)
    decreases |tokens|
  {
    if !Succeeded(ExpandToken(dns, domain, tokens[0], fuel)) {
      k := 0;
    } else {
      var i :| 0 <= i < |tokens| && !Succeeded(ExpandToken(dns, domain, tokens[i], fuel));
      assert tokens[1..][i - 1] == tokens[i];
      var m := FirstFailure(dns, domain, tokens[1..], fuel);
      k := m + 1;
      assert forall j :: 0 < j <= k ==> tokens[j] == tokens[1..][j - 1];
    }
  }

  /** Running one walk after another: the first's failure stands, otherwise the
      contributions are concatenated. */
  function Then(first: Fueled<seq<string>>, second: Fueled<seq<string>>): Fueled<seq<string>>
  {
    match first
    case Finished(Ok(a)) =>
      (match second
       case Finished(Ok(b)) => Finished(Ok(a + b))
       case other => other)
    case other => other
  }

  /** Output order is token order: expanding `xs + ys` is expanding `xs`, then `ys`. */
  lemma {:induction false} ExpandTokensAppend(dns: Resolver, domain: string, xs: seq<string>, ys: seq<string>, fuel: nat)
    ensures ExpandTokens(dns, domain, xs + ys, fuel)
         == Then(ExpandTokens(dns, domain, xs, fuel), ExpandTokens(dns, domain, ys, fuel))
    decreases |xs|
  {
    if |xs| == 0 {
      assert xs + ys == ys;
      var second := ExpandTokens(dns, domain, ys, fuel);
      if second.Finished? && second.result.Ok? {
        assert [] + second.result.value == second.result.value;
      }
    } else {
      assert (xs + ys)[0] == xs[0];
      assert (xs + ys)[1..] == xs[1..] + ys;
      ExpandTokensAppend(dns, domain, xs[1..], ys, fuel);
      var head := ExpandToken(dns, domain, xs[0], fuel);
      var tail := ExpandTokens(dns, domain, xs[1..], fuel);
      var second := ExpandTokens(dns, domain, ys, fuel);
      if head.Finished? && head.result.Ok? && tail.Finished? && tail.result.Ok?
         && second.Finished? && second.result.Ok? {
        var h, t, b := head.result.value, tail.result.value, second.result.value;
        assert h + (t + b) == (h + t) + b;
      }
    }
  }

  /** The `ip4` values of the tokens that start with `ip4`, in order. */
  function Ip4Values(tokens: seq<string>): seq<string>
  {
    if |tokens| == 0 then []
    else if HasPrefix(tokens[0], Ip4Tag) then [RemoveAll(tokens[0], Ip4Prefix)] + Ip4Values(tokens[1..])
    else Ip4Values(tokens[1..])
  }

  /** A policy of `ip4` and inert tokens needs no lookup and no fuel, cannot
      fail, and yields its `ip4` values in token order. */
  lemma {:induction false} StaticPolicy(dns: Resolver, domain: string, tokens: seq<string>, fuel: nat)
    requires forall k :: 0 <= k < |tokens| ==> HasPrefix(tokens[k], Ip4Tag) || IsInert(tokens[k])
    ensures ExpandTokens(dns, domain, tokens, fuel) == Finished(Ok(Ip4Values(tokens)))
    decreases |tokens|
  {
    if |tokens| > 0 {
      StaticPolicy(dns, domain, tokens[1..], fuel);
      if !HasPrefix(tokens[0], Ip4Tag) {
        assert [] + Ip4Values(tokens[1..]) == Ip4Values(tokens[1..]);
      }
    }
  }

  /** `include:target` with a target free of further `include:` text: lookup and
      selection errors for the target abort the walk; otherwise the target's
      own expansion is inlined, whatever the current domain, except that an
      error inside it is dropped and the include adds nothing. */
  lemma {:induction false} IncludeSemantics(dns: Resolver, current: string, target: string, fuel: nat)
    requires !Occurs(IncludePrefix, target)
    ensures LookupTxt(dns, target).Err? ==>
      ExpandToken(dns, current, IncludePrefix + target, fuel) == Finished(Err(LookupTxt(dns, target).error))
    ensures LookupTxt(dns, target).Ok? && FindSpfRecord(LookupTxt(dns, target).value).Err? ==>
      ExpandToken(dns, current, IncludePrefix + target, fuel) == Finished(Err(SpfRecordCount))
    ensures LookupTxt(dns, target).Ok? && FindSpfRecord(LookupTxt(dns, target).value).Ok? ==>
      var policy := FindSpfRecord(LookupTxt(dns, target).value).value[0];
      var nested := Expand(dns, target, policy, fuel);
      && (nested.Finished? && nested.result.Ok? ==>
            ExpandToken(dns, current, IncludePrefix + target, fuel + 1) == nested)
      && (nested.Finished? && nested.result.Err? ==>
            ExpandToken(dns, current, IncludePrefix + target, fuel + 1) == Finished(Ok([])))
      && (nested.OutOfFuel? ==>
            ExpandToken(dns, current, IncludePrefix + target, fuel + 1) == OutOfFuel)
  {
    var token := IncludePrefix + target;
    RemoveAllLeading(IncludePrefix, target);
    assert RemoveAll(token, IncludePrefix) == target;
    assert token[..|IncludeTag|] == IncludeTag;
    assert !HasPrefix(Version, token) by {
      assert token[0] == 'i';
    }
    assert !HasPrefix(token, Ip4Tag) by {
      assert token[1] == 'n';
    }
  }

  /** A policy of the version tag and one term expands exactly as that term does. */
  lemma SingleTermPolicy(dns: Resolver, domain: string, term: string, fuel: nat)
    requires ' ' !in term
    ensures Expand(dns, domain, Version + " " + term, fuel) == ExpandToken(dns, domain, term, fuel)
  {
    var tokens := [Version, term];
    assert Join(tokens, ' ') == Version + " " + term by {
      assert Join(tokens[1..], ' ') == term;
    }
    SplitJoin(tokens, ' ');
    assert tokens[1..] == [term];
    assert ExpandToken(dns, domain, Version, fuel) == Finished(Ok([]));
    assert Split(Version + " " + term, ' ') == tokens;
    var single := ExpandToken(dns, domain, term, fuel);
    assert ExpandTokens(dns, domain, [], fuel) == Finished(Ok([]));
    if single.Finished? && single.result.Ok? {
      var v := single.result.value;
      assert v + [] == v && [] + v == v;
    }
    assert ExpandTokens(dns, domain, [term], fuel) == single;
    assert ExpandTokens(dns, domain, tokens, fuel) == single;
  }

  /** `v=spf1 ip4:block` allows exactly `block`, with no lookup. */
  lemma Ip4TermPolicy(dns: Resolver, domain: string, block: string, fuel: nat)
    requires ' ' !in block && !Occurs(Ip4Prefix, block)
    ensures Expand(dns, domain, Version + " " + Ip4Prefix + block, fuel) == Finished(Ok([block]))
  {
    var term := Ip4Prefix + block;
    assert ' ' !in term;
    assert Version + " " + Ip4Prefix + block == Version + " " + term;
    SingleTermPolicy(dns, domain, term, fuel);
    assert HasPrefix(term, Ip4Tag) by {
      assert term[..|Ip4Tag|] == Ip4Tag;
    }
    RemoveAllLeading(Ip4Prefix, block);
  }

  /** `v=spf1 include:target`, where `target` publishes the one policy
      `policy`, expands as `policy` does one level of fuel further down
      whenever that expansion succeeds. */
  lemma IncludeTermPolicy(dns: Resolver, domain: string, target: string, policy: string, fuel: nat)
    requires ' ' !in target && !Occurs(IncludePrefix, target)
    requires LookupTxt(dns, target) == Ok([policy]) && IsSpf(policy)
    requires Expand(dns, target, policy, fuel).Finished? && Expand(dns, target, policy, fuel).result.Ok?
    ensures Expand(dns, domain, Version + " " + IncludePrefix + target, fuel + 1) == Expand(dns, target, policy, fuel)
  {
    var term := IncludePrefix + target;
    assert ' ' !in term;
    assert Version + " " + IncludePrefix + target == Version + " " + term;
    SingleTermPolicy(dns, domain, term, fuel + 1);
    assert UniqueSpfAt([policy], 0);
    IncludeSemantics(dns, domain, target, fuel);
  }

  /** A domain whose only policy includes itself never finishes expanding: the
      Go code recurses without end, and no amount of fuel suffices. */
  lemma {:induction false} SelfIncludeNeverFinishes(dns: Resolver, d: string, fuel: nat)
    requires ' ' !in d && !Occurs(IncludePrefix, d)
    requires LookupTxt(dns, d) == Ok([Version + " " + IncludePrefix + d])
    ensures Expand(dns, d, Version + " " + IncludePrefix + d, fuel) == OutOfFuel
    decreases fuel
  {
    var policy := Version + " " + IncludePrefix + d;
    var self := IncludePrefix + d;
    assert ' ' !in self;
    assert policy == Version + " " + self;
    SingleTermPolicy(dns, d, self, fuel);
    assert FindSpfRecord([policy]) == Ok([policy]) by {
      assert policy[..|Version|] == Version;
      assert UniqueSpfAt([policy], 0);
    }
    SelfIncludeStep(dns, d, policy, fuel);
    if fuel > 0 {
      SelfIncludeNeverFinishes(dns, d, fuel - 1);
    }
  }

  /** The `include` token of a self-including policy re-expands that policy
      with one unit of fuel less. */
  lemma SelfIncludeStep(dns: Resolver, d: string, policy: string, fuel: nat)
    requires !Occurs(IncludePrefix, d)
    requires LookupTxt(dns, d) == Ok([policy]) && FindSpfRecord([policy]) == Ok([policy])
    ensures ExpandToken(dns, d, IncludePrefix + d, fuel)
         == if fuel == 0 then OutOfFuel else Inlined(Expand(dns, d, policy, fuel - 1))
  {
    var self := IncludePrefix + d;
    assert HasPrefix(self, IncludeTag) by {
      assert self[..|IncludeTag|] == IncludeTag;
    }
    assert RemoveAll(self, IncludePrefix) == d by {
      RemoveAllLeading(IncludePrefix, d);
    }
    assert !HasPrefix(Version, self) by {
      assert self[0] == 'i';
    }
    assert !HasPrefix(self, Ip4Tag) by {
      assert self[1] == 'n';
    }
  }

  /** More generally, a domain whose one policy includes itself after only
      `ip4` and inert tokens never finishes expanding, whatever follows. */
  lemma {:induction false} SelfIncludeAfterStaticPrefix(dns: Resolver, d: string, policy: string,
                                                        xs: seq<string>, ys: seq<string>, fuel: nat)
    requires !Occurs(IncludePrefix, d)
    requires LookupTxt(dns, d) == Ok([policy]) && IsSpf(policy)
    requires Split(policy, ' ') == xs + [IncludePrefix + d] + ys
    requires forall k :: 0 <= k < |xs| ==> HasPrefix(xs[k], Ip4Tag) || IsInert(xs[k])
    ensures Expand(dns, d, policy, fuel) == OutOfFuel
    decreases fuel
  {
    var self := IncludePrefix + d;
    assert UniqueSpfAt([policy], 0);
    SelfIncludeStep(dns, d, policy, fuel);
    if fuel > 0 {
      SelfIncludeAfterStaticPrefix(dns, d, policy, xs, ys, fuel - 1);
    }
    StaticPolicy(dns, d, xs, fuel);
    assert xs + [self] + ys == xs + ([self] + ys);
    ExpandTokensAppend(dns, d, xs, [self] + ys, fuel);
    assert ([self] + ys)[0] == self;
  }

  /** More fuel never changes a finished expansion. */
  lemma {:induction false} ExpandFuelMonotone(dns: Resolver, domain: string, record: string, fuel: nat, more: nat)
    requires fuel <= more
    requires Expand(dns, domain, record, fuel).Finished?
    ensures Expand(dns, domain, record, more) == Expand(dns, domain, record, fuel)
    decreases fuel, 2, 0
  {
    ExpandTokensFuelMonotone(dns, domain, Split(record, ' '), fuel, more);
  }

  lemma {:induction false} ExpandTokensFuelMonotone(dns: Resolver, domain: string, tokens: seq<string>, fuel: nat, more: nat)
    requires fuel <= more
    requires ExpandTokens(dns, domain, tokens, fuel).Finished?
    ensures ExpandTokens(dns, domain, tokens, more) == ExpandTokens(dns, domain, tokens, fuel)
    decreases fuel, 1, |tokens|
  {
    if |tokens| > 0 {
      ExpandTokenFuelMonotone(dns, domain, tokens[0], fuel, more);
      if ExpandToken(dns, domain, tokens[0], fuel).result.Ok? {
        ExpandTokensFuelMonotone(dns, domain, tokens[1..], fuel, more);
      }
    }
  }

  lemma {:induction false} ExpandTokenFuelMonotone(dns: Resolver, domain: string, token: string, fuel: nat, more: nat)
    requires fuel <= more
    requires ExpandToken(dns, domain, token, fuel).Finished?
    ensures ExpandToken(dns, domain, token, more) == ExpandToken(dns, domain, token, fuel)
    decreases fuel, 0, 0
  {
    if !HasPrefix(Version, token) && !HasPrefix(token, Ip4Tag) && HasPrefix(token, IncludeTag) {
      var target := RemoveAll(token, IncludePrefix);
      if LookupTxt(dns, target).Ok? && FindSpfRecord(LookupTxt(dns, target).value).Ok? && fuel > 0 {
        var policy := FindSpfRecord(LookupTxt(dns, target).value).value[0];
        if Expand(dns, target, policy, fuel - 1).Finished? {
          ExpandFuelMonotone(dns, target, policy, fuel - 1, more - 1);
        }
      }
    }
  }

  /** `A`, `MX` and the other mixed-case spellings pass the case-insensitive
      test of the dispatch but fail the case-sensitive one of `parseOtherRecord`. */
  lemma UpperCaseKindFails(dns: Resolver, domain: string, token: string, fuel: nat)
    requires token in {"A", "MX", "Mx", "mX"}
    ensures ExpandToken(dns, domain, token, fuel) == Finished(Err(UnknownRecord))
  {
    assert token[0] == 'A' || token[0] == 'M' || token[0] == 'm';
    assert !HasPrefix(Version, token) && !HasPrefix(token, Ip4Tag) && !HasPrefix(token, IncludeTag);
    assert ToLower(token) == "a" || ToLower(token) == "mx";
  }
}
