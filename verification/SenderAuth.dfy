/** Sender authentication by SPF, DKIM and DMARC (smtp/sender_auth.go; RFC 7489). The outcomes of
    the SPF, DKIM and DNS libraries are inputs. */
module SenderAuth {
  import opened GoStrings

  datatype Mode = Strict | Relaxed

  datatype Policy = Policy(disposition: string, spf: Mode, dkim: Mode)

  /** A DMARC record lookup; `Failed` is any error other than "no policy", or no record at all. */
  datatype Lookup = NoPolicy | Failed | Found(policy: Policy)

  /** One checked signature; `valid` is false for a nil verification or one with an error. */
  datatype Signature = Signature(valid: bool, domain: string)

  /** `registrable` is the public-suffix list's eTLD+1. */
  datatype Dns = Dns(lookup: string -> Lookup, registrable: string -> Option<string>, lower: string -> string)

  /** What the libraries found out about a message. */
  datatype Evidence = Evidence(
    empty: bool, fromDomain: Option<string>, spfDomain: string, spfResult: string, dkims: seq<Signature>)

  datatype Verdict = Verdict(authenticated: bool, spf: string, dkim: string, dmarc: string)

  // ----- alignment -----

  function Canon(dns: Dns, d: string): string { dns.lower(if HasSuffix(d, ".") then d[..|d| - 1] else d) }

  function OrganizationalDomain(dns: Dns, d: string): string {
    var c := Canon(dns, d);
    if c == "" then "" else match dns.registrable(c) case Some(r) => r case None => c
  }

  predicate Aligned(dns: Dns, fromDomain: string, authDomain: string, mode: Mode) {
    var f, a := Canon(dns, fromDomain), Canon(dns, authDomain);
    if f == "" || a == "" then false
    else if f == a then true
    else mode.Relaxed? && OrganizationalDomain(dns, f) == OrganizationalDomain(dns, a)
  }

  /** On domains that are not empty, alignment in either mode is an equivalence, and relaxed
      alignment contains strict alignment (section 3.1 of RFC 7489). */
  lemma AlignmentIsEquivalence(dns: Dns, a: string, b: string, c: string, mode: Mode)
    requires Canon(dns, a) != "" && Canon(dns, b) != "" && Canon(dns, c) != ""
    ensures Aligned(dns, a, a, mode)
    ensures Aligned(dns, a, b, mode) ==> Aligned(dns, b, a, mode)
    ensures Aligned(dns, a, b, mode) && Aligned(dns, b, c, mode) ==> Aligned(dns, a, c, mode)
    ensures Aligned(dns, a, b, Strict) ==> Aligned(dns, a, b, mode)
  {
  }

  /** Domains are compared in lower case and without a final dot. */
  lemma CanonExactly(dns: Dns, d: string)
    ensures Canon(dns, d + ".") == dns.lower(d)
    ensures d == "" || d[|d| - 1] != '.' ==> Canon(dns, d) == dns.lower(d)
  {
    assert (d + ".")[..|d|] == d;
  }

  /** Strict alignment is identity of the domains. */
  lemma StrictExactly(dns: Dns, a: string, b: string)
    ensures Aligned(dns, a, b, Strict) <==> Canon(dns, a) == Canon(dns, b) != ""
  {
  }

  /** Relaxed alignment is identity of the registrable domains, where there are any. */
  lemma RelaxedExactly(dns: Dns, a: string, b: string)
    ensures Aligned(dns, a, b, Relaxed) <==>
            && Canon(dns, a) != "" && Canon(dns, b) != ""
            && (Canon(dns, a) == Canon(dns, b)
                || OrganizationalDomain(dns, Canon(dns, a)) == OrganizationalDomain(dns, Canon(dns, b)))
    ensures Canon(dns, a) != "" ==>
              OrganizationalDomain(dns, a)
              == if dns.registrable(Canon(dns, a)).Some? then dns.registrable(Canon(dns, a)).value else Canon(dns, a)
    ensures Canon(dns, a) == "" ==> OrganizationalDomain(dns, a) == ""
  {
  }

  // ----- DMARC -----

  /** The policy found for the domain, or failing that for its organisational domain. */
  function Discovered(dns: Dns, fromDomain: string): Lookup {
    var exact, org := dns.lookup(fromDomain), OrganizationalDomain(dns, fromDomain);
    if exact.NoPolicy? && org != "" && org != fromDomain then dns.lookup(org) else exact
  }

  /** Which policy decides: the one published at the From domain, or, when there is none there, the one
      at its organisational domain. A lookup that fails is not taken for the absence of a policy. */
  lemma PolicyExactly(dns: Dns, fromDomain: string)
    ensures var exact, org := dns.lookup(fromDomain), OrganizationalDomain(dns, fromDomain);
            var wider := org != "" && org != fromDomain;
            && (forall p :: Discovered(dns, fromDomain) == Found(p) <==>
                  exact == Found(p) || (exact == NoPolicy && wider && dns.lookup(org) == Found(p)))
            && (Discovered(dns, fromDomain) == NoPolicy <==>
                  exact == NoPolicy && (wider ==> dns.lookup(org) == NoPolicy))
  {
  }

  /** An identifier that passed and is aligned under the policy. */
  ghost predicate AlignedPass(dns: Dns, e: Evidence, fromDomain: string, p: Policy) {
    || (e.spfResult == "pass" && Aligned(dns, fromDomain, e.spfDomain, p.spf))
    || exists s :: s in e.dkims && s.valid && Aligned(dns, fromDomain, s.domain, p.dkim)
  }

  method EvaluateDmarc(dns: Dns, e: Evidence, fromDomain: string) returns (found: bool, pass: bool, policy: string)
    ensures found <==> !Discovered(dns, fromDomain).NoPolicy?
    ensures pass <==>
            Discovered(dns, fromDomain).Found? && AlignedPass(dns, e, fromDomain, Discovered(dns, fromDomain).policy)
    ensures policy == if Discovered(dns, fromDomain).Found? then Discovered(dns, fromDomain).policy.disposition else ""
  {
    var rec := dns.lookup(fromDomain);
    if rec.NoPolicy? {
      var org := OrganizationalDomain(dns, fromDomain);
      if org != "" && org != fromDomain {
        rec := dns.lookup(org);
      }
    }
    match rec {
      case NoPolicy => return false, false, "";
      case Failed => return true, false, "";
      case Found(p) =>
        var spfAligned := e.spfResult == "pass" && Aligned(dns, fromDomain, e.spfDomain, p.spf);
        var dkimAligned := false;
        for i := 0 to |e.dkims|
          invariant !dkimAligned
          invariant forall j :: 0 <= j < i ==>
                      !(e.dkims[j].valid && Aligned(dns, fromDomain, e.dkims[j].domain, p.dkim))
        {
          if e.dkims[i].valid && Aligned(dns, fromDomain, e.dkims[i].domain, p.dkim) {
            dkimAligned := true;
            assert e.dkims[i] in e.dkims;
            break;
          }
        }
        return true, spfAligned || dkimAligned, p.disposition;
    }
  }

  method AnyDkimPass(dkims: seq<Signature>) returns (r: bool)
    ensures r <==> exists s :: s in dkims && s.valid
  {
    for i := 0 to |dkims|
      invariant forall j :: 0 <= j < i ==> !dkims[j].valid
    {
      if dkims[i].valid {
        assert dkims[i] in dkims;
        return true;
      }
    }
    r := false;
  }

  // ----- the verdict -----

  /** The sender is authenticated: its From domain is usable, and either a policy was found with an
      aligned identifier that passed, or there is no policy and SPF or some signature passed. */
  ghost predicate Authentic(dns: Dns, e: Evidence) {
    && e.fromDomain.Some?
    && match Discovered(dns, e.fromDomain.value)
       case Found(p) => AlignedPass(dns, e, e.fromDomain.value, p)
       case Failed => false
       case NoPolicy => e.spfResult == "pass" || exists s :: s in e.dkims && s.valid
  }

  /** `None` is an error, given only for a missing message. */
  method Verify(dns: Dns, e: Evidence) returns (v: Option<Verdict>)
    ensures v.None? <==> e.empty
    ensures v.Some? ==> (v.value.authenticated <==> Authentic(dns, e))
    ensures v.Some? && e.fromDomain.None? ==> v.value == Verdict(false, "", "", "")
    ensures v.Some? && e.fromDomain.Some? ==>
              && v.value.spf == e.spfResult
              && (v.value.dkim == "pass" <==> exists s :: s in e.dkims && s.valid)
              && (v.value.dmarc == "none" <==> Discovered(dns, e.fromDomain.value).NoPolicy?)
  {
    if e.empty {
      return None;
    }
    if e.fromDomain.None? {
      return Some(Verdict(false, "", "", ""));
    }
    var found, pass, policy := EvaluateDmarc(dns, e, e.fromDomain.value);
    var dkimPass := AnyDkimPass(e.dkims);
    var dkim := if |e.dkims| == 0 then "none" else if dkimPass then "pass" else "fail";
    var dmarc := if !found then "none" else (if pass then "pass (policy " else "fail (policy ") + policy + ")";
    assert found ==> dmarc[0] != 'n';
    var spfPass := e.spfResult == "pass";
    var authenticated := if found then pass else spfPass || dkimPass;
    return Some(Verdict(authenticated, e.spfResult, dkim, dmarc));
  }

  /** Under a strict policy a sender is authenticated exactly when SPF or some signature passed for the
      From domain itself. */
  lemma StrictPolicyExactly(dns: Dns, e: Evidence)
    requires e.fromDomain.Some? && Discovered(dns, e.fromDomain.value).Found?
    requires Discovered(dns, e.fromDomain.value).policy.spf == Discovered(dns, e.fromDomain.value).policy.dkim == Strict
    ensures var from := Canon(dns, e.fromDomain.value);
            Authentic(dns, e) <==>
            from != "" && ((e.spfResult == "pass" && Canon(dns, e.spfDomain) == from)
                           || exists s :: s in e.dkims && s.valid && Canon(dns, s.domain) == from)
  {
    var from := e.fromDomain.value;
    StrictExactly(dns, from, e.spfDomain);
    forall s | s in e.dkims
      ensures Aligned(dns, from, s.domain, Strict) <==> Canon(dns, s.domain) == Canon(dns, from) != ""
    {
      StrictExactly(dns, from, s.domain);
    }
  }

  /** Without a policy a sender is authenticated exactly when SPF or any signature passed; with one that
      cannot be looked up, never. */
  lemma NoPolicyExactly(dns: Dns, e: Evidence)
    requires e.fromDomain.Some?
    ensures Discovered(dns, e.fromDomain.value).NoPolicy? ==>
              (Authentic(dns, e) <==>
               e.spfResult == "pass" || exists i :: 0 <= i < |e.dkims| && e.dkims[i].valid)
    ensures Discovered(dns, e.fromDomain.value).Failed? ==> !Authentic(dns, e)
  {
    forall i | 0 <= i < |e.dkims| ensures e.dkims[i] in e.dkims {}
  }

  /** A pass for another domain of the same owner is worth as much under a relaxed policy, and nothing
      under a strict one. */
  lemma SiblingExactly(dns: Dns, e: Evidence, owner: string)
    requires e.fromDomain.Some? && Discovered(dns, e.fromDomain.value).Found?
    requires var f, a := Canon(dns, e.fromDomain.value), Canon(dns, e.spfDomain);
             && f != "" && a != "" && f != a && e.spfResult == "pass" && e.dkims == []
             && OrganizationalDomain(dns, f) == OrganizationalDomain(dns, a) == owner
    ensures Authentic(dns, e) <==> Discovered(dns, e.fromDomain.value).policy.spf == Relaxed
  {
  }

  function Relax(l: Lookup): Lookup {
    match l case Found(p) => Found(p.(spf := Relaxed, dkim := Relaxed)) case _ => l
  }

  /** Relaxing every policy's alignment modes never loses an authentication. */
  lemma RelaxingKeeps(dns: Dns, e: Evidence)
    requires Authentic(dns, e)
    ensures Authentic(dns.(lookup := d => Relax(dns.lookup(d))), e)
  {
    var relaxed := dns.(lookup := d => Relax(dns.lookup(d)));
    var f := e.fromDomain.value;
    assert OrganizationalDomain(relaxed, f) == OrganizationalDomain(dns, f);
    assert Discovered(relaxed, f) == Relax(Discovered(dns, f));
    if Discovered(dns, f).Found? {
      var p := Discovered(dns, f).policy;
      if s :| s in e.dkims && s.valid && Aligned(dns, f, s.domain, p.dkim) {
        assert Aligned(relaxed, f, s.domain, Relaxed);
      }
    }
  }
}
