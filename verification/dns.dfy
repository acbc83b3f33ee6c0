/** The resolver the checker consults, as an immutable value.

    The Go code calls `net.LookupTXT`, `net.LookupIP` and `net.LookupMX`
    directly. Here those three lookups read three finite maps from names to
    answers. A name missing from a map fails like a non-existent host; a name
    mapped to `Failure` fails with the recorded reason (a timeout, a SERVFAIL).
    Address answers are held as text, the form `net.IP.String()` gives them in.
 */
module Dns {
  import opened Outcomes

  /** One answer of the resolver: the records, or why there are none. */
  datatype Answer = Records(records: seq<string>) | Failure(reason: string)

  datatype Resolver = Resolver(
    txt: map<string, Answer>,
    addresses: map<string, Answer>,
    mx: map<string, Answer>)

  const NoSuchHost: string := "no such host"

  /** Ask one map of the resolver about `name`. */
  function Query(zone: map<string, Answer>, name: string): (r: Result<seq<string>>)
    ensures r.Ok? <==> name in zone && zone[name].Records?
    ensures r.Ok? ==> r.value == zone[name].records
    ensures r.Err? ==> r.error.LookupFailed? && r.error.name == name
  {
    if name !in zone then Err(LookupFailed(name, NoSuchHost))
    else match zone[name]
      case Records(rs) => Ok(rs)
      case Failure(why) => Err(LookupFailed(name, why))
  }

  /** `net.LookupTXT(name)`. */
  function LookupTxt(dns: Resolver, name: string): Result<seq<string>>
  {
    Query(dns.txt, name)
  }

  /** `net.LookupIP(name)`, each address already rendered as text. */
  function LookupIp(dns: Resolver, name: string): Result<seq<string>>
  {
    Query(dns.addresses, name)
  }

  /** `net.LookupMX(name)`: the `Host` of each MX record, in answer order. */
  function LookupMx(dns: Resolver, name: string): Result<seq<string>>
  {
    Query(dns.mx, name)
  }
}
