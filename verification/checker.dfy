/** The caching checker: `NewSPFChecker`, `DumpCache`, `LookupSPFRecords`
    and `Validate`.

    The checker's only state is a map from domain to the selected SPF record
    (held as a one-element list). The state is threaded through explicitly:
    every operation takes a checker and returns the checker it leaves behind.
 */
module SpfChecker {
  import opened Outcomes
  import opened Text
  import opened Dns
  import opened SpfRecord
  import opened Expansion
  import opened NetAddr
  import opened MembershipCheck

  datatype Checker = Checker(cache: map<string, seq<string>>)

  /** A result together with the checker state after the call. */
  datatype Step<T> = Step(checker: Checker, result: T)

  /** Every cached entry is one selected SPF record, which is all
      `LookupSPFRecords` ever stores. */
  ghost predicate WellFormed(c: Checker) {
    forall d :: d in c.cache ==> |c.cache[d]| == 1 && IsSpf(c.cache[d][0])
  }

  /** What `Validate` needs of the cache: it reads the first element of the
      cached list without checking that there is one. */
  predicate Usable(c: Checker) {
    forall d :: d in c.cache ==> |c.cache[d]| > 0
  }

  /** `NewSPFChecker`: a checker with nothing cached. */
  function NewSpfChecker(): (c: Checker)
    ensures WellFormed(c) && Usable(c)
    ensures forall d :: d !in c.cache
  {
    Checker(map[])
  }

  /** `DumpCache`: forget every cached record. */
  function DumpCache(c: Checker): (c': Checker)
    ensures WellFormed(c') && Usable(c')
    ensures forall d :: d !in c'.cache
  {
    Checker(map[])
  }

  /** The uncached part of `LookupSPFRecords`: the TXT lookup, the empty-answer
      check, and `findSPFRecord`. */
  function SelectSpfRecord(dns: Resolver, domain: string): (r: Result<seq<string>>)
    ensures r.Ok? ==> |r.value| == 1 && IsSpf(r.value[0])
    ensures r.Ok? ==> LookupTxt(dns, domain).Ok? && r.value[0] in LookupTxt(dns, domain).value
    ensures r == Err(NoSpfRecords) <==> LookupTxt(dns, domain) == Ok([])
    ensures LookupTxt(dns, domain).Err? ==> r == Err(LookupTxt(dns, domain).error)
    ensures LookupTxt(dns, domain).Ok? && |LookupTxt(dns, domain).value| > 0 ==>
      r == FindSpfRecord(LookupTxt(dns, domain).value)
  {
    var txts :- LookupTxt(dns, domain);
    if |txts| == 0 then Err(NoSpfRecords)
    else FindSpfRecord(txts)
  }

  /** `LookupSPFRecords`: a cached domain is answered from the cache; otherwise
      the selected record is stored under `domain` on success only. */
  function LookupSpfRecords(c: Checker, dns: Resolver, domain: string): (s: Step<Result<seq<string>>>)
    ensures domain in c.cache ==> s == Step(c, Ok(c.cache[domain]))
    ensures domain !in c.cache ==> s.result == SelectSpfRecord(dns, domain)
    ensures s.result.Ok? ==> s.checker.cache == c.cache[domain := s.result.value]
    ensures s.result.Err? ==> s.checker == c
    ensures WellFormed(c) ==> WellFormed(s.checker)
    ensures Usable(c) ==> Usable(s.checker) && (s.result.Ok? ==> |s.result.value| > 0)
  {
    if domain in c.cache then Step(c, Ok(c.cache[domain]))
    else
      match SelectSpfRecord(dns, domain)
      case Err(e) => Step(c, Err(e))
      case Ok(records) => Step(Checker(c.cache[domain := records]), Ok(records))
  }

  /** `spfChecker.Validate`: is `ip` allowed to send mail for `domain`?
      An empty TXT answer is reported as not allowed without an error; any
      other failure is reported as not allowed with the error. */
  function Validate(c: Checker, dns: Resolver, v6: Ipv6Parser, ip: string, domain: string, fuel: nat)
    : (s: Step<Fueled<bool>>)
    requires Usable(c)
    ensures s.checker == LookupSpfRecords(c, dns, domain).checker
    ensures Usable(s.checker)
    ensures WellFormed(c) ==> WellFormed(s.checker)
    ensures domain !in c.cache && LookupTxt(dns, domain) == Ok([]) ==> s == Step(c, Finished(Ok(false)))
    ensures s.result.Finished? && s.result.result.Err? ==> s.result.result.error != NoSpfRecords
    ensures var looked := LookupSpfRecords(c, dns, domain).result;
      looked.Err? && looked.error != NoSpfRecords ==> s.result == Finished(Err(looked.error))
    ensures var looked := LookupSpfRecords(c, dns, domain).result;
      looked.Ok? ==>
        var specs := Expand(dns, domain, looked.value[0], fuel);
        && (specs.OutOfFuel? ==> s.result == OutOfFuel)
        && (specs.Finished? && specs.result.Err? ==> s.result == Finished(Err(specs.result.error)))
        && (specs.Finished? && specs.result.Ok? ==> s.result == Finished(Membership(v6, ip, specs.result.value)))
    ensures s.result == Finished(Ok(true)) ==>
      && domain in s.checker.cache
      && var specs := Expand(dns, domain, s.checker.cache[domain][0], fuel);
      && specs.Finished? && specs.result.Ok?
      && exists i :: 0 <= i < |specs.result.value| && SpecVerdict(v6, ip, specs.result.value[i]) == Ok(true)
  {
    var looked := LookupSpfRecords(c, dns, domain);
    match looked.result
    case Err(e) =>
      if e == NoSpfRecords then Step(looked.checker, Finished(Ok(false)))
      else Step(looked.checker, Finished(Err(e)))
    case Ok(records) =>
      match Expand(dns, domain, records[0], fuel)
      case OutOfFuel => Step(looked.checker, OutOfFuel)
      case Finished(Err(e)) =>
        assert e != NoSpfRecords by {
          ExpansionNeverReportsNoRecords(dns, domain, records[0], fuel);
        }
        Step(looked.checker, Finished(Err(e)))
      case Finished(Ok(specs)) =>
        var verdict := Membership(v6, ip, specs);
        assert verdict.Err? ==> verdict.error != NoSpfRecords by {
          if verdict.Err? {
            var i :| FirstDecisive(v6, ip, specs, i);
          }
        }
        Step(looked.checker, Finished(verdict))
  }

  // ----------------------------------------------------------------- lemmas

  /** The sentinel `ErrNoSPFRecords` is produced only by `LookupSPFRecords`:
      no error of the expansion equals it, so `Validate` never mistakes an
      expansion failure for a missing record. */
  lemma {:induction false} ExpansionNeverReportsNoRecords(dns: Resolver, domain: string, record: string, fuel: nat)
    ensures Expand(dns, domain, record, fuel) != Finished(Err(NoSpfRecords))
  {
    TokensNeverReportNoRecords(dns, domain, Split(record, ' '), fuel);
  }

  lemma {:induction false} TokensNeverReportNoRecords(dns: Resolver, domain: string, tokens: seq<string>, fuel: nat)
    ensures ExpandTokens(dns, domain, tokens, fuel) != Finished(Err(NoSpfRecords))
    decreases |tokens|
  {
    if |tokens| > 0 {
      TokensNeverReportNoRecords(dns, domain, tokens[1..], fuel);
      var t := tokens[0];
      if ToLower(t) == "mx" && t == "mx" && LookupMx(dns, domain).Ok? {
        var hosts := LookupMx(dns, domain).value;
        if MxAddresses(dns, hosts).Err? {
          var i :| FirstFailingHost(dns, hosts, i) && MxAddresses(dns, hosts).error == LookupIp(dns, hosts[i]).error;
        }
      }
    }
  }

  /** Validating twice in a row with the same arguments gives the same verdict
      and leaves the checker as the first call left it. */
  lemma ValidateRepeatable(c: Checker, dns: Resolver, v6: Ipv6Parser, ip: string, domain: string, fuel: nat)
    requires Usable(c)
    ensures var first := Validate(c, dns, v6, ip, domain, fuel);
            Validate(first.checker, dns, v6, ip, domain, fuel) == first
  {
    var first := Validate(c, dns, v6, ip, domain, fuel);
    var looked := LookupSpfRecords(c, dns, domain);
    if looked.result.Ok? {
      assert domain in first.checker.cache;
      assert LookupSpfRecords(first.checker, dns, domain) == Step(first.checker, looked.result);
    }
  }

  /** Once a domain's record is cached, the resolver's TXT answers play no part
      in looking it up. */
  lemma CachedLookupIgnoresResolver(c: Checker, dns: Resolver, other: Resolver, domain: string)
    requires domain in c.cache
    ensures LookupSpfRecords(c, dns, domain) == LookupSpfRecords(c, other, domain)
  {
  }

  /** After `DumpCache`, every lookup goes to the resolver again. */
  lemma DumpCacheForcesFreshLookup(c: Checker, dns: Resolver, domain: string)
    ensures LookupSpfRecords(DumpCache(c), dns, domain).result == SelectSpfRecord(dns, domain)
  {
  }

  /** How `Validate` reports a domain whose record cannot be selected, when
      nothing is cached for it: an empty TXT answer is "not allowed" without an
      error, TXT strings with no `v=spf1` string or with several are an error,
      and the cache is left as it was. */
  lemma ValidateSelectionFailures(c: Checker, dns: Resolver, v6: Ipv6Parser, ip: string, domain: string, fuel: nat)
    requires Usable(c) && domain !in c.cache
    requires LookupTxt(dns, domain).Ok?
    ensures var txts := LookupTxt(dns, domain).value;
            (forall i :: 0 <= i < |txts| ==> !IsSpf(txts[i])) ==>
              Validate(c, dns, v6, ip, domain, fuel)
                == Step(c, Finished(if |txts| == 0 then Ok(false) else Err(SpfRecordCount)))
    ensures var txts := LookupTxt(dns, domain).value;
            (exists i, j :: 0 <= i < j < |txts| && IsSpf(txts[i]) && IsSpf(txts[j])) ==>
              Validate(c, dns, v6, ip, domain, fuel) == Step(c, Finished(Err(SpfRecordCount)))
  {
    var txts := LookupTxt(dns, domain).value;
    if exists i, j :: 0 <= i < j < |txts| && IsSpf(txts[i]) && IsSpf(txts[j]) {
      var i, j :| 0 <= i < j < |txts| && IsSpf(txts[i]) && IsSpf(txts[j]);
      AmbiguousPolicyRejected(txts, i, j);
    }
  }

  /** An allowed sender stays allowed whatever is appended to the list of
      specifications, and a list without match or error defers to what follows. */
  lemma FirstMatchWins(v6: Ipv6Parser, ip: string, xs: seq<string>, ys: seq<string>)
    requires Membership(v6, ip, xs) == Ok(true)
    ensures Membership(v6, ip, xs + ys) == Ok(true)
  {
    MembershipAppend(v6, ip, xs, ys);
  }
}
