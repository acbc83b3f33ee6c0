/** Pulling the domain out of a mail address (`processEmail` and the
    normalisation step of `GetDomainFromEmail`).

    `mail.ParseAddress` is not part of this model: the input here is the bare
    address it extracts. The address is trimmed of surrounding white space,
    lower-cased, and must then hold exactly one `@`; the domain is what follows it.
 */
module Email {
  import opened Outcomes
  import opened Text

  /** `processEmail`: the part after the one `@`, or `AtSignCount`. */
  function ProcessEmail(email: string): (r: Result<string>)
    ensures r.Ok? <==> Count(email, '@') == 1
    ensures r.Ok? ==> '@' !in r.value
    ensures r.Ok? ==> exists local :: '@' !in local && email == local + "@" + r.value
    ensures r.Err? ==> r.error == AtSignCount
  {
    var parts := Split(email, '@');
    if |parts| != 2 then Err(AtSignCount)
    else
      assert email == parts[0] + "@" + parts[1] by {
        assert Join(parts[1..], '@') == parts[1];
      }
      Ok(parts[1])
  }

  /** An address built from a local part and a domain, neither holding `@`,
      gives that domain back. */
  lemma ProcessEmailRoundTrip(local: string, domain: string)
    requires '@' !in local && '@' !in domain
    ensures ProcessEmail(local + "@" + domain) == Ok(domain)
  {
    var parts := [local, domain];
    assert Join(parts, '@') == local + "@" + domain by {
      assert Join(parts[1..], '@') == domain;
    }
    SplitJoin(parts, '@');
  }

  /** The domain step of `GetDomainFromEmail` on an already extracted address. */
  function DomainFromAddress(address: string): (r: Result<string>)
    ensures r.Ok? ==> forall i :: 0 <= i < |r.value| ==> !('A' <= r.value[i] <= 'Z')
  {
    var normal := ToLower(TrimSpace(address));
    DomainKeepsCase(normal);
    ProcessEmail(normal)
  }

  /** The domain is a part of the address, so it has no letter case the
      address lacks. */
  lemma DomainKeepsCase(email: string)
    requires forall i :: 0 <= i < |email| ==> !('A' <= email[i] <= 'Z')
    ensures ProcessEmail(email).Ok? ==>
      forall i :: 0 <= i < |ProcessEmail(email).value| ==> !('A' <= ProcessEmail(email).value[i] <= 'Z')
  {
    var r := ProcessEmail(email);
    if r.Ok? {
      var local :| '@' !in local && email == local + "@" + r.value;
      forall i | 0 <= i < |r.value| ensures !('A' <= r.value[i] <= 'Z') {
        assert r.value[i] == email[|local| + 1 + i];
      }
    }
  }

  /** An address with no white space at either end gives back its domain,
      lower-cased. */
  lemma DomainOfAddress(local: string, domain: string)
    requires '@' !in local && '@' !in domain
    requires |local| > 0 && !IsSpace(local[0])
    requires |domain| > 0 && !IsSpace(domain[|domain| - 1])
    ensures DomainFromAddress(local + "@" + domain) == Ok(ToLower(domain))
  {
    var s := local + "@" + domain;
    assert s[0] == local[0] && s[|s| - 1] == domain[|domain| - 1];
    TrimSpaceKeepsTrimmed(s);
    var lower := ToLower(local) + "@" + ToLower(domain);
    ToLowerAppend(local, "@");
    ToLowerAppend(local + "@", domain);
    assert ToLower("@") == "@";
    ToLowerKeepsAbsent(local, '@');
    ToLowerKeepsAbsent(domain, '@');
    assert ToLower(s) == lower;
    ProcessEmailRoundTrip(ToLower(local), ToLower(domain));
    assert ProcessEmail(lower) == Ok(ToLower(domain));
  }

  /** The example `cathal@Garvey.Me`: the domain comes back lower-cased. */
  lemma MixedCaseDomain()
    ensures DomainFromAddress("cathal@Garvey.Me") == Ok("garvey.me")
  {
    ExampleTrimmed();
    ExampleLowered();
    ExampleSplit();
  }

  lemma ExampleTrimmed()
    ensures TrimSpace("cathal@Garvey.Me") == "cathal@Garvey.Me"
  {
    TrimSpaceKeepsTrimmed("cathal@Garvey.Me");
  }

  lemma ExampleLowered()
    ensures ToLower("cathal@Garvey.Me") == "cathal@garvey.me"
  {
  }

  lemma ExampleSplit()
    ensures ProcessEmail("cathal@garvey.me") == Ok("garvey.me")
  {
    assert "cathal" + "@" + "garvey.me" == "cathal@garvey.me";
    ProcessEmailRoundTrip("cathal", "garvey.me");
  }
}
