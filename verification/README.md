# SPF checking in Dafny

A model of a small Go library that decides whether an IP address may send
mail for a domain under the Sender Policy Framework (RFC 7208, in a much
simplified form), and proofs about it. The library:

- looks up a domain's TXT strings and picks its one SPF policy: the single
  string starting with `v=spf1`. It caches that choice per domain.
- expands the policy into a flat list of network specifications.
  - `ip4:` tokens contribute their text.
  - `include:` tokens contribute the expansion of another domain's policy.
  - `a` and `mx` contribute the addresses of the domain, or of its mail exchangers.
- tests the sender address against each specification as a CIDR block. The
  first block that holds the address allows it.
- extracts the domain from a mail address.

Modules, one per file:

| file | module | what it holds |
|---|---|---|
| `outcomes.dfy` | `Outcomes` | `Result`, `Option`, the error kinds, and `Fueled` (a result, or "ran out of include depth") |
| `text.dfy` | `Text` | the Go `strings` operations used: `Split`, `Replace(…, "", -1)`, `HasPrefix`, `ToLower`, `TrimSpace` |
| `dns.dfy` | `Dns` | the resolver as an immutable value: TXT, address and MX answers per name |
| `spf_record.dfy` | `SpfRecord` | `findSPFRecord` |
| `netaddr.dfy` | `NetAddr` | IPv4 text, CIDR parsing, IPv4-mapped addresses, prefix containment |
| `expansion.dfy` | `Expansion` | `getIPsForRecord` and `parseOtherRecord` |
| `membership.dfy` | `MembershipCheck` | the loop at the end of `Validate` |
| `checker.dfy` | `SpfChecker` | the caching checker: `NewSPFChecker`, `DumpCache`, `LookupSPFRecords`, `Validate` |
| `email.dfy` | `Email` | `processEmail` and the domain step of `GetDomainFromEmail` |
| `scenarios.dfy` | `Scenarios` | end-to-end results of `Validate` on families of DNS data |

The checker's cache is threaded through explicitly. `LookupSpfRecords` and
`Validate` take a `Checker` value and return the checker they leave behind,
in a `Step`; `NewSpfChecker` and `DumpCache` return a bare `Checker`.

The `include` recursion in the Go code has no bound, and a policy that
includes its own domain with no failing token before the include never
returns. The model gives the expansion a `fuel`
count, the depth of includes it may follow, and answers `OutOfFuel` when
that runs out. `SelfIncludeNeverFinishes` shows that no fuel is enough for
the policy `v=spf1 include:<itself>`, and `SelfIncludeAfterStaticPrefix`
the same for any policy whose tokens before the self-include are `ip4` or
inert. `ExpandFuelMonotone` shows that extra fuel never changes a
finished answer.

Where the code and its documented intent differ, the model follows the code:

- An empty TXT answer makes `Validate` return "not allowed" with no error
  (spf.go:62-63 and 81-82). The live test at email_test.go:30-33 expects
  "allowed" for such a domain.
- TXT strings with no `v=spf1` string among them are an error. It is the
  same error as for several SPF strings (spf.go:150-151), not "no records".
- Inside an `include`, an error from the nested expansion is dropped
  (spf.go:181). The include then adds nothing. Lookup and selection errors
  for the included domain itself abort the walk (spf.go:172-179).
- The `ip4` test checks only the prefix `ip4`, with no colon. Every `ip4:`
  in the token is deleted, not just the leading one (spf.go:166-167). The
  same holds for `include` (spf.go:170-171).
- The `v=spf1` guard tests whether the token is a prefix of `v=spf1`, not
  the other way round (spf.go:164). `VersionFragmentIsInert` shows that such
  a token would have been skipped anyway.
- The dispatch matches `a` and `mx` ignoring case (spf.go:186). The
  handler matches them case-sensitively (spf.go:204, 213). So `A` and `MX`
  fail with "Unknown Record" (`UpperCaseKindFails`).
- The cache holds the selected SPF string, not the expanded network list.
  Includes are looked up again on every call.

## Model

| member | source | states |
|---|---|---|
| Text.Split | spf.go:159 | the pieces number one more than the separators, none holds the separator, and joining them with it gives the input back |
| Text.SplitJoin | spf.go:159 | splitting undoes joining for pieces free of the separator |
| Text.SplitAfterPlainPrefix | spf.go:159 | a separator-free prefix glues onto the first piece |
| Text.JoinChars | spf.go:101-102 | a non-separator character of a joined string comes from one of the pieces |
| Text.IndexOf | spf.go:108 | the position of the first occurrence of the character |
| Text.RemoveAll | spf.go:167-171 | deleting never lengthens the string and introduces no character that was not in it; a string in which the pattern does not occur is returned unchanged |
| Text.RemoveAllFirst | spf.go:167-171 | the first occurrence is deleted wherever it stands, the text before it kept, and scanning resumes after it, so every non-overlapping occurrence goes, not only a leading one |
| Text.RemoveAllLeading | spf.go:171 | a leading occurrence is deleted and the rest is processed alone |
| Text.FirstCharAbsent | spf.go:167 | a pattern whose first character is absent does not occur |
| Text.ToLower | spf.go:127 | same length, no upper-case letter left, exactly the upper-case positions change, and each upper-case letter becomes the letter 32 code points above it |
| Text.ToLowerAppend | spf.go:127 | lower-casing distributes over concatenation |
| Text.ToLowerKeepsAbsent | spf.go:127 | lower-casing introduces no non-letter such as `@` |
| Text.TrimLeft | spf.go:127 | a suffix of the input, everything cut is white space, and it starts with no white space |
| Text.TrimRight | spf.go:127 | a prefix of the input, everything cut is white space, and it ends with no white space |
| Text.TrimSpace | spf.go:127 | a contiguous part of the input with only white space cut from either end, and none left at either end |
| Text.TrimSpaceKeepsTrimmed | spf.go:127 | a string with no white space at either end is unchanged |
| Text.TrimmedBothEnds | spf.go:127 | trimming the front and then the back leaves a contiguous part with only white space cut |
| Dns.Query | spf.go:58-61 | a lookup succeeds exactly when the name has records; a failure names the name |
| SpfRecord.SpfStrings | spf.go:144-149 | the SPF strings: none iff no string starts with `v=spf1`, exactly that one iff a single string does, more than one otherwise |
| SpfRecord.FindSpfRecord | spf.go:143-154 | success iff exactly one TXT string starts with `v=spf1`, and then the result is that string alone; otherwise the count error |
| SpfRecord.AmbiguousPolicyRejected | spf.go:150-151 | two SPF strings are an error, never a merge |
| NetAddr.OctetTextParses | spf.go:108 | the decimal text of a byte is a valid IPv4 field with that value |
| NetAddr.OctetTextCanonical | spf.go:108 | a valid IPv4 field is the decimal text of its value (no leading zeros) |
| NetAddr.LeadingDigitBound | spf.go:108 | a digit string without leading zero is at least 10 to its length minus one |
| NetAddr.FormatThenParseIpv4 | spf.go:112 | dotted-quad text of an address parses back to that address |
| NetAddr.ParseThenFormatIpv4 | spf.go:112 | text that parses as IPv4 is the dotted-quad text of its address |
| NetAddr.ParseIpv4 | spf.go:108-112 | a success has four bytes, and the text holds exactly three dots and otherwise only digits, so no `/` and no `:` |
| NetAddr.BitsInjective | spf.go:113 | numbers below 2^n with the same n bits are equal |
| NetAddr.AddressBitsInjective | spf.go:113 | addresses of one length with the same bits are equal |
| NetAddr.To4 | spf.go:113 | the step of `IPNet.Contains` that replaces the address by `To4` when that is non-nil: an IPv4-mapped IPv6 address becomes the four bytes that `::ffff:` maps; any other address is kept |
| NetAddr.AddressBitsAppend | spf.go:113 | the bits of two byte strings laid end to end are their bit strings laid end to end |
| NetAddr.NetworkOf | spf.go:108-113 | a valid block that holds its own address after the `To4` step, except an IPv4-mapped address with a prefix below 96, whose block then holds no four-byte address at all |
| NetAddr.NetworkOfPrefixRule | spf.go:108-113 | unless the network is IPv4-mapped with a prefix of 96 or more, its block holds exactly the addresses of the same length that share the first `prefix` bits |
| NetAddr.Contains | spf.go:113 | a block holds its own network address |
| NetAddr.MappedNetworkAgrees | spf.go:108-113 | treating an IPv4-mapped network with a prefix of at least 96 as an IPv4 block gives the verdict the sixteen-byte block gives the mapped address |
| NetAddr.FullPrefixHoldsOnlyItself | spf.go:103-113 | a block with a full-length prefix holds exactly its own address |
| NetAddr.ShorterPrefixWidens | spf.go:113 | shortening a block's prefix keeps every address it held |
| NetAddr.EmptyPrefixHoldsFamily | spf.go:113 | a zero-length prefix holds every address of the same family |
| NetAddr.ParseIp | spf.go:112 | IPv4 text parses to its four bytes; any parsed address has four or sixteen bytes |
| NetAddr.ParseCidr | spf.go:108-111 | text without `/` is an error; a success is a valid block; a failure names the text |
| NetAddr.ParseIpv4Cidr | spf.go:108 | IPv4 text, `/` and a decimal length of at most 32 parse to that address and length |
| Expansion.MxAddresses | spf.go:213-228 | success iff every MX host resolves, the addresses then concatenated in MX order; otherwise the error of the first host that fails |
| Expansion.ParseOtherRecord | spf.go:202-231 | `a` gives the domain's addresses, `mx` those of its MX hosts or the MX lookup error, anything else "Unknown Record" |
| Expansion.VersionFragmentIsInert | spf.go:164-166 | a token the `v=spf1` guard skips is one the dispatch would skip anyway |
| Expansion.Inlined | spf.go:181-184 | an include whose target's expansion succeeds adds exactly that expansion; a failure inside it adds nothing instead of failing; running out of fuel stays running out of fuel |
| Expansion.ExpandToken | spf.go:163-197 | inert tokens add nothing; `ip4` tokens add themselves without `ip4:`; only an `include` can run out of fuel; exactly `a` and `mx` give what `parseOtherRecord` gives |
| Expansion.ExpandTokensOutcome | spf.go:160-199 | the walk over the tokens succeeds iff every token does; otherwise it ends with the outcome of the first token that does not |
| Expansion.FirstFailure | spf.go:160-199 | when some token does not succeed there is a first one |
| Expansion.ExpandOutcome | spf.go:156-200 | expanding a policy runs out of fuel only if one of its space-separated tokens is an `include`, and fails only if one is an `include`, `a` or `mx` token |
| Expansion.ExpandTokensAppend | spf.go:160-199 | tokens are handled in order: expanding `xs + ys` is expanding `xs` then `ys`, stopping at the first failure |
| Expansion.StaticPolicy | spf.go:163-169 | a policy of `ip4` and inert tokens needs no lookup, cannot fail and yields its `ip4` values in order |
| Expansion.IncludeSemantics | spf.go:170-185 | lookup and selection errors of the included domain abort; its successful expansion is inlined; an error inside it is dropped |
| Expansion.SingleTermPolicy | spf.go:159-199 | `v=spf1 <term>` expands exactly as the term does |
| Expansion.Ip4TermPolicy | spf.go:166-169 | `v=spf1 ip4:<block>` yields exactly the block |
| Expansion.IncludeTermPolicy | spf.go:170-185 | `v=spf1 include:<target>` yields what the target's one policy yields, when that expansion succeeds |
| Expansion.SelfIncludeStep | spf.go:170-181 | the `include` token of a self-including policy re-expands that policy one level down |
| Expansion.SelfIncludeNeverFinishes | spf.go:170-181 | a domain whose policy is exactly `v=spf1 include:<itself>` never finishes expanding, whatever the fuel |
| Expansion.SelfIncludeAfterStaticPrefix | spf.go:160-181 | a domain whose one policy includes itself after only `ip4` and inert tokens never finishes expanding, whatever the fuel and whatever follows the include |
| Expansion.ExpandFuelMonotone | spf.go:181 | more include depth never changes a finished expansion |
| Expansion.ExpandTokensFuelMonotone | spf.go:160-199 | the same for a token list |
| Expansion.ExpandTokenFuelMonotone | spf.go:170-185 | the same for one token |
| Expansion.UpperCaseKindFails | spf.go:186-189 | `A`, `MX` and mixed-case `mx` pass the dispatch but fail with "Unknown Record" |
| MembershipCheck.WithPrefixLength | spf.go:100-107 | a specification without `/` gets `/32`, or `/128` when it holds `:`; one with `/` is unchanged |
| MembershipCheck.SpecVerdict | spf.go:100-115 | a specification that does not parse fails with the error naming the text with its prefix length; a match needs a sender address that parses |
| MembershipCheck.Membership | spf.go:99-117 | "not allowed" iff every specification parses and misses; otherwise the verdict of the first one that matches or fails to parse |
| MembershipCheck.DecisiveHead | spf.go:113-115 | a decisive first specification decides the loop |
| MembershipCheck.DecisiveTail | spf.go:99-116 | a first specification that misses defers to the rest |
| MembershipCheck.DecisiveShift | spf.go:99-116 | after a first specification that misses, the first decisive position is one further on in the rest |
| MembershipCheck.MembershipAppend | spf.go:99-117 | the verdict on `xs + ys` is that on `xs` unless `xs` holds no match and no error |
| MembershipCheck.BareIpv4IsSingleHost | spf.go:100-115 | a bare dotted quad holds exactly the address it spells |
| MembershipCheck.Ipv4BlockSpec | spf.go:108-113 | a dotted quad with a prefix length holds the addresses sharing that many leading bits |
| SpfChecker.NewSpfChecker | spf.go:43-47 | a new checker caches nothing |
| SpfChecker.DumpCache | spf.go:50-52 | after a dump nothing is cached |
| SpfChecker.SelectSpfRecord | spf.go:58-71 | lookup errors pass through; "no records" exactly for an empty TXT answer; otherwise the selection of the one SPF string |
| SpfChecker.LookupSpfRecords | spf.go:55-75 | a cached domain is answered from the cache alone; a miss selects and caches on success only; the cache stays well formed |
| SpfChecker.Validate | spf.go:78-118 | the cache is updated as the lookup leaves it; an empty TXT answer is "not allowed" without error; any other lookup or selection error is returned; otherwise an expansion error is returned, and a finished expansion gives exactly the verdict of the membership loop over it |
| SpfChecker.ExpansionNeverReportsNoRecords | spf.go:79-95 | no expansion error equals the "no records" sentinel, so only a missing record is silenced |
| SpfChecker.TokensNeverReportNoRecords | spf.go:160-199 | the same for a token list |
| SpfChecker.ValidateRepeatable | spf.go:56-74 | validating twice gives the same verdict and leaves the cache as the first call left it |
| SpfChecker.CachedLookupIgnoresResolver | spf.go:56-57 | a cached domain's lookup does not depend on the resolver |
| SpfChecker.DumpCacheForcesFreshLookup | spf.go:50-58 | after a dump every lookup goes to the resolver |
| SpfChecker.ValidateSelectionFailures | spf.go:58-84 | with nothing cached: no SPF string gives "not allowed" for an empty answer and an error otherwise; two SPF strings give an error; the cache is unchanged |
| SpfChecker.FirstMatchWins | spf.go:113-115 | an allowed sender stays allowed whatever follows in the specification list |
| Email.ProcessEmail | spf.go:133-140 | success iff exactly one `@`; the domain then holds no `@` and the address is a local part, `@`, and the domain |
| Email.ProcessEmailRoundTrip | spf.go:133-139 | an address built from a local part and a domain gives that domain back |
| Email.DomainFromAddress | spf.go:127 | the domain holds no upper-case letter |
| Email.DomainKeepsCase | spf.go:133-139 | the domain of an address without upper-case letters has none either |
| Email.MixedCaseDomain | email_test.go:21 | `cathal@Garvey.Me` gives `garvey.me` |
| Email.DomainOfAddress | spf.go:127 | an address with no white space at either end gives its domain, lower-cased, as in `cathal@Garvey.Me` giving `garvey.me` (email_test.go:21) |
| Scenarios.BlockText | spf.go:166-167 | the text of an IPv4 block holds no space and no `ip4:` |
| Scenarios.SingleBlockMembership | spf.go:99-117 | one block as the whole list allows the sender exactly when the block holds it |
| Scenarios.IncludedBlockDecides | spf.go:78-117 | a domain that includes another domain's `ip4` block allows a sender exactly when that block holds it, and caches its own policy |

## Left out

- SpfChecker.Validate: requires `Usable(c)`, so the cache never holds an empty policy list for a domain. `Cache` is an exported field of the Go checker, and a caller that stores an empty list there makes spf.go:86 index out of range; that panic is not modelled.
- Network lookups (`net.LookupTXT`, `net.LookupIP`, `net.LookupMX`) are replaced by an immutable `Resolver` value. Its address answers are already text, the form `net.IP.String()` gives.
- IPv6 address text is not parsed. It is the parameter `v6` of type `Ipv6Parser`, an arbitrary parser whose successes are sixteen bytes. IPv4 text is parsed concretely.
- `mail.ParseAddress` (spf.go:123-126) is not part of this model. `DomainFromAddress` starts from the address it extracts, so the display-name forms of email_test.go:19-20 are not covered.
- `ToLower` and `TrimSpace` cover ASCII only. Unicode case mapping and Unicode white space are left out.
- The package-level checker, `init` and the top-level `Validate` and `DumpCache` wrappers (spf.go:10-34) are left out. They only forward to one shared checker; the model passes the checker explicitly.
- Concurrent use of the cache is left out. The Go map has no locking.
- The computation of `allRecord` (spf.go:87-90) is left out: its result is never used.
- The check at spf.go:69-71 is left out: `findSPFRecord` never returns an empty list without an error (`FindSpfRecord` proves its success is a singleton).
- Expansion.Expand: the include depth is bounded by `fuel`. A run that needs more answers `OutOfFuel`, where the Go code would recurse further or forever.
- The live DNS test at email_test.go:24-34 depends on real DNS data and is left out.
- IPv4 fields with a leading zero (`010`) are rejected, as Go's parser does from release 1.17 on. Earlier releases read them as decimal; that behaviour is left out.
- Email.DomainFromAddress: states only that the domain is lower-case. `DomainOfAddress` gives the exact result for addresses without surrounding white space.
