/** SendMail and the choice of hosts (smtp/outbound.go): recipients are grouped by domain and each
    group is delivered on its own. */
module Relay {
  import opened GoStrings
  import opened Outbound
  import opened OutboundTheorems
  import Crlf

  // ----- MX records -----

  datatype Mx = Mx(host: string, pref: nat)

  ghost predicate InPreferenceOrder(mxs: seq<Mx>) {
    forall i, j :: 0 <= i < j < |mxs| ==> mxs[i].pref <= mxs[j].pref
  }

  function InsertMx(m: Mx, mxs: seq<Mx>): (r: seq<Mx>)
    ensures multiset(r) == multiset(mxs) + multiset{m}
  {
    if mxs == [] || m.pref <= mxs[0].pref then [m] + mxs
    else
      assert mxs == [mxs[0]] + mxs[1..];
      [mxs[0]] + InsertMx(m, mxs[1..])
  }

  lemma {:induction false} InsertMxOrdered(m: Mx, mxs: seq<Mx>)
    requires InPreferenceOrder(mxs)
    ensures InPreferenceOrder(InsertMx(m, mxs))
  {
    if mxs != [] && m.pref > mxs[0].pref {
      InsertMxOrdered(m, mxs[1..]);
      var t := InsertMx(m, mxs[1..]);
      forall i | 0 <= i < |t| ensures mxs[0].pref <= t[i].pref {
        assert t[i] in multiset(t);
        assert t[i] == m || t[i] in mxs[1..];
      }
    }
  }

  /** sort.Slice by preference; equal preferences keep their order here. */
  function ByPreference(mxs: seq<Mx>): (r: seq<Mx>)
    ensures multiset(r) == multiset(mxs) && InPreferenceOrder(r)
  {
    if mxs == [] then []
    else
      assert mxs == [mxs[0]] + mxs[1..];
      InsertMxOrdered(mxs[0], ByPreference(mxs[1..]));
      InsertMx(mxs[0], ByPreference(mxs[1..]))
  }

  function Endpoint(host: string): string {
    if ':' in host then "[" + host + "]:25" else host + ":25"
  }

  function TrimDot(host: string): string { if HasSuffix(host, ".") then host[..|host| - 1] else host }

  /** `hosts` are the endpoints of the records `mxs`, best preference first. */
  ghost predicate Ranks(hosts: seq<string>, mxs: seq<Mx>) {
    exists order: seq<Mx> ::
      multiset(order) == multiset(mxs) && InPreferenceOrder(order) && hosts == Endpoints(order)
  }

  function Endpoints(mxs: seq<Mx>): seq<string> {
    if mxs == [] then [] else Endpoints(mxs[..|mxs| - 1]) + [Endpoint(TrimDot(mxs[|mxs| - 1].host))]
  }

  /** The outside of one call: `domainOf` is the lower-cased domain of an address that parses and
      has one; `lookup` and `hasAddress` are the DNS; `behaves` is what the host at a position of a
      domain's list does when reached at its endpoint; `live` is how many hosts of a domain are
      reached before the context is cancelled. */
  datatype Net = Net(
    trim: string -> string, domainOf: string -> Option<string>, lookup: string -> Option<seq<Mx>>,
    hasAddress: string -> bool, behaves: (string, nat, string) -> Host, live: string -> nat)

  /** `hosts` is an order in which a sender may try the hosts of domain `d` (section 5.1 of RFC 5321):
      by preference of the MX records, or the domain itself when it has only addresses. */
  ghost predicate MxOrder(net: Net, d: string, hosts: seq<string>) {
    if net.lookup(d).Some? && net.lookup(d).value != [] then Ranks(hosts, net.lookup(d).value)
    else hosts == if net.hasAddress(d) then [Endpoint(d)] else []
  }

  method MxHosts(net: Net, domain: string) returns (hosts: seq<string>)
    ensures MxOrder(net, domain, hosts)
  {
    hosts := [];
    var lookup := net.lookup(domain);
    if lookup.Some? && |lookup.value| > 0 {
      var mxs := ByPreference(lookup.value);
      for i := 0 to |mxs|
        invariant hosts == Endpoints(mxs[..i])
      {
        hosts := hosts + [Endpoint(TrimDot(mxs[i].host))];
        assert mxs[..i + 1][..i] == mxs[..i];
      }
      assert mxs[..|mxs|] == mxs;
    } else if net.hasAddress(domain) {
      hosts := hosts + [Endpoint(domain)];
    }
  }

  lemma {:induction false} EndpointsAt(mxs: seq<Mx>, k: nat)
    requires k < |mxs|
    ensures |Endpoints(mxs)| == |mxs| && Endpoints(mxs)[k] == Endpoint(TrimDot(mxs[k].host))
  {
    EndpointsLength(mxs[..|mxs| - 1]);
    if k < |mxs| - 1 { EndpointsAt(mxs[..|mxs| - 1], k); }
  }

  /** Every MX record is dialed, on port 25, under its host name without the final dot; so is the bare
      domain when it has addresses and no records. An IPv6 address goes in brackets. */
  lemma RecordsDialed(net: Net, d: string, hosts: seq<string>, name: string, pref: nat)
    requires MxOrder(net, d, hosts)
    requires if net.lookup(d).Some? && net.lookup(d).value != []
             then Mx(name + ".", pref) in net.lookup(d).value
                  || (Mx(name, pref) in net.lookup(d).value && (name == "" || name[|name| - 1] != '.'))
             else net.hasAddress(d) && name == d
    ensures (if ':' in name then "[" + name + "]:25" else name + ":25") in hosts
    ensures |hosts| == if net.lookup(d).Some? && net.lookup(d).value != [] then |net.lookup(d).value| else 1
  {
    if net.lookup(d).Some? && net.lookup(d).value != [] {
      var mxs := net.lookup(d).value;
      var m := if Mx(name + ".", pref) in mxs then Mx(name + ".", pref) else Mx(name, pref);
      var order: seq<Mx> :| multiset(order) == multiset(mxs) && InPreferenceOrder(order) && hosts == Endpoints(order);
      RankedIn(order, mxs, m);
      DotTrimmed(name);
    }
  }

  lemma RankedIn(order: seq<Mx>, mxs: seq<Mx>, m: Mx)
    requires multiset(order) == multiset(mxs) && m in mxs
    ensures |Endpoints(order)| == |mxs| && Endpoint(TrimDot(m.host)) in Endpoints(order)
  {
    assert m in multiset(order) && |order| == |multiset(order)| == |mxs|;
    var k :| 0 <= k < |order| && order[k] == m;
    EndpointsAt(order, k);
    assert Endpoints(order)[k] in Endpoints(order);
  }

  lemma DotTrimmed(name: string)
    ensures TrimDot(name + ".") == name
    ensures name == "" || name[|name| - 1] != '.' ==> TrimDot(name) == name
  {
    assert (name + ".")[..|name|] == name;
  }

  // ----- SendMail -----

  /** What the hosts of a domain do, in the order they are tried, up to the cancellation. */
  function Remote(net: Net, d: string, hosts: seq<string>): seq<Host> {
    Reached(seq(|hosts|, i requires 0 <= i < |hosts| => net.behaves(d, i, hosts[i])), net.live(d))
  }

  const INVALID := Delivery(false, "554 5.1.3 Invalid recipient address")

  /** The trimmed recipients of domain `d`, in order and with repetitions. */
  function Group(net: Net, rs: seq<string>, d: string): seq<string> {
    if rs == [] then []
    else
      var t := net.trim(rs[|rs| - 1]);
      Group(net, rs[..|rs| - 1], d) + if net.domainOf(t) == Some(d) then [t] else []
  }

  ghost function Trimmed(net: Net, rs: seq<string>): set<string> { set r | r in rs :: net.trim(r) }

  lemma {:induction false} GroupMembers(net: Net, rs: seq<string>, d: string, t: string)
    ensures t in Group(net, rs, d) <==> t in Trimmed(net, rs) && net.domainOf(t) == Some(d)
  {
    if rs != [] {
      var n := |rs| - 1;
      GroupMembers(net, rs[..n], d, t);
      TrimmedStep(net, rs[..n], rs[n]);
      assert rs == rs[..n] + [rs[n]];
    }
  }

  lemma GroupStep(net: Net, rs: seq<string>, r: string, d: string)
    ensures Group(net, rs + [r], d)
            == Group(net, rs, d) + if net.domainOf(net.trim(r)) == Some(d) then [net.trim(r)] else []
  {
    assert (rs + [r])[..|rs|] == rs;
  }

  lemma TrimmedStep(net: Net, rs: seq<string>, r: string)
    ensures Trimmed(net, rs + [r]) == Trimmed(net, rs) + {net.trim(r)}
  {
  }

  /** The delivery to domain `d` over `hosts`. */
  function DeliverGroup(net: Net, hosts: seq<string>, size: nat, rs: seq<string>, d: string): map<string, Delivery> {
    Deliver(d, Remote(net, d, hosts), size, Group(net, rs, d))
  }

  lemma GroupKeys(net: Net, hosts: seq<string>, size: nat, rs: seq<string>, d: string, t: string)
    ensures t in DeliverGroup(net, hosts, size, rs, d) <==> t in Trimmed(net, rs) && net.domainOf(t) == Some(d)
  {
    DeliverConserves(d, Remote(net, d, hosts), size, Group(net, rs, d));
    GroupMembers(net, rs, d, t);
    assert t in DeliverGroup(net, hosts, size, rs, d) <==> t in DeliverGroup(net, hosts, size, rs, d).Keys;
  }

  function At(m: map<string, seq<string>>, d: string): seq<string> { if d in m then m[d] else [] }

  /** Sorts the recipients: the invalid ones, and the rest by domain. */
  method GroupByDomain(net: Net, recipients: seq<string>)
    returns (invalid: set<string>, byDomain: map<string, seq<string>>)
    ensures forall t :: t in invalid <==> t in Trimmed(net, recipients) && net.domainOf(t).None?
    ensures forall d :: At(byDomain, d) == Group(net, recipients, d)
  {
    invalid, byDomain := {}, map[];
    for i := 0 to |recipients|
      invariant forall t :: t in invalid <==> t in Trimmed(net, recipients[..i]) && net.domainOf(t).None?
      invariant forall d :: At(byDomain, d) == Group(net, recipients[..i], d)
    {
      var rcpt := net.trim(recipients[i]);
      ghost var done, was := recipients[..i], byDomain;
      assert recipients[..i + 1] == done + [recipients[i]];
      TrimmedStep(net, done, recipients[i]);
      match net.domainOf(rcpt) {
        case None =>
          invalid := invalid + {rcpt};
        case Some(domain) =>
          byDomain := byDomain[domain := At(byDomain, domain) + [rcpt]];
      }
      forall d ensures At(byDomain, d) == Group(net, recipients[..i + 1], d) {
        GroupStep(net, done, recipients[i], d);
        assert At(was, d) == Group(net, done, d);
      }
    }
    assert recipients[..|recipients|] == recipients;
  }

  /** What was sent about recipient `t`: a 554 line if the address does not parse, and otherwise what
      the delivery to its domain, over the domain's route, said about it. */
  ghost predicate Sent(net: Net, size: nat, rs: seq<string>, route: map<string, seq<string>>,
                       t: string, res: Delivery)
  {
    match net.domainOf(t)
    case None => res == Delivery(false, "554 5.1.3 Invalid recipient address")
    case Some(d) =>
      && d in route && MxOrder(net, d, route[d])
      && t in DeliverGroup(net, route[d], size, rs, d) && res == DeliverGroup(net, route[d], size, rs, d)[t]
  }

  /** The results hold one entry per trimmed recipient, repeated or not, and each is what was sent
      about it over one order of each domain's MX hosts. */
  method SendMail(net: Net, recipients: seq<string>, rawMessage: string)
    returns (results: map<string, Delivery>, ghost route: map<string, seq<string>>)
    ensures results.Keys == Trimmed(net, recipients)
    ensures forall t :: t in results ==> Sent(net, |Crlf.NormalizeCRLF(rawMessage)|, recipients, route, t, results[t])
  {
    var size := |Crlf.NormalizeCRLF(rawMessage)|;
    var invalid, byDomain := GroupByDomain(net, recipients);
    results, route := map t | t in invalid :: INVALID, map[];
    var rest := byDomain.Keys;
    while rest != {}
      invariant rest <= byDomain.Keys && route.Keys == byDomain.Keys - rest
      invariant forall t :: t in results <==>
                  t in Trimmed(net, recipients) && (net.domainOf(t).None? || net.domainOf(t).value in route)
      invariant forall t :: t in results ==> Sent(net, size, recipients, route, t, results[t])
    {
      var d :| d in rest;
      rest := rest - {d};
      assert At(byDomain, d) == Group(net, recipients, d);
      var sent;
      ghost var hosts;
      sent, hosts := DeliverDomain(net, d, size, recipients, byDomain[d]);
      ghost var was, wasRoute := results, route;
      results, route := results + sent, route[d := hosts];
      forall t | t in results ensures Sent(net, size, recipients, route, t, results[t]) {
        if t !in sent { assert Sent(net, size, recipients, wasRoute, t, was[t]); }
      }
    }
    forall t | t in Trimmed(net, recipients) ensures t in results {
      if net.domainOf(t).Some? {
        var d := net.domainOf(t).value;
        GroupMembers(net, recipients, d, t);
        assert At(byDomain, d) == Group(net, recipients, d);
      }
    }
  }

  method DeliverDomain(net: Net, d: string, size: nat, ghost rs: seq<string>, group: seq<string>)
    returns (sent: map<string, Delivery>, ghost hosts: seq<string>)
    requires group == Group(net, rs, d)
    ensures MxOrder(net, d, hosts) && sent == DeliverGroup(net, hosts, size, rs, d)
    ensures forall t :: t in sent <==> t in Trimmed(net, rs) && net.domainOf(t) == Some(d)
  {
    var order := MxHosts(net, d);
    hosts := order;
    var remote := seq(|order|, i requires 0 <= i < |order| => net.behaves(d, i, order[i]));
    sent := DeliverToDomain(d, remote, net.live(d), size, group);
    assert remote[..|remote|] == remote;
    forall t ensures t in sent <==> t in Trimmed(net, rs) && net.domainOf(t) == Some(d) {
      GroupKeys(net, order, size, rs, d, t);
    }
  }

  /** Host `i` of the records in `order` settled recipient `t`, and every host of better preference had
      been offered it before and left it open. */
  ghost predicate SettledInTurn(order: seq<Mx>, remote: seq<Host>, size: nat, rs: seq<string>, t: string, i: nat)
    requires i < |remote| <= |order|
  {
    && t in Attempt(remote, size, rs, i).final
    && forall j :: 0 <= j < |order| && order[j].pref < order[i].pref ==>
         j < |remote| && t in Pending(remote, size, rs, j) && t !in Attempt(remote, size, rs, j).final
  }

  /** Among distinct recipients of a domain with MX records, each gets the result of one host, which
      no host of better preference was passed over for; or nobody settled it and it gets the 421
      line. */
  lemma FirstByPreference(net: Net, d: string, hosts: seq<string>, size: nat, rs: seq<string>, t: string)
    requires net.lookup(d).Some? && net.lookup(d).value != [] && MxOrder(net, d, hosts)
    requires NoDup(Group(net, rs, d)) && t in Group(net, rs, d)
    ensures t in DeliverGroup(net, hosts, size, rs, d)
    ensures exists order: seq<Mx> ::
              && multiset(order) == multiset(net.lookup(d).value)
              && InPreferenceOrder(order) && hosts == Endpoints(order)
              && InTurnOrUnreached(order, Remote(net, d, hosts), size, Group(net, rs, d), t,
                                   DeliverGroup(net, hosts, size, rs, d)[t], Unreached(d))
  {
    var order: seq<Mx> :|
      multiset(order) == multiset(net.lookup(d).value) && InPreferenceOrder(order) && hosts == Endpoints(order);
    EndpointsLength(order);
    DeliveredInTurn(d, order, Remote(net, d, hosts), size, Group(net, rs, d), t);
  }

  lemma DeliveredInTurn(d: string, order: seq<Mx>, remote: seq<Host>, size: nat, rs: seq<string>, t: string)
    requires InPreferenceOrder(order) && |remote| <= |order| && NoDup(rs) && t in rs
    ensures t in Deliver(d, remote, size, rs)
    ensures InTurnOrUnreached(order, remote, size, rs, t, Deliver(d, remote, size, rs)[t], Unreached(d))
  {
    FirstOutcome(d, remote, size, rs);
    if i :| 0 <= i < |remote| && t in Attempt(remote, size, rs, i).final {
      forall j | 0 <= j < |order| && order[j].pref < order[i].pref
        ensures j < |remote| && t in Pending(remote, size, rs, j) && t !in Attempt(remote, size, rs, j).final
      {
        assert j < i;
        OfferedBefore(remote, size, rs, t, j, i);
      }
      assert SettledInTurn(order, remote, size, rs, t, i);
    }
  }

  ghost predicate InTurnOrUnreached(order: seq<Mx>, remote: seq<Host>, size: nat, rs: seq<string>, t: string,
                                    res: Delivery, unreached: Delivery)
  {
    && |remote| <= |order|
    && ((exists i :: 0 <= i < |remote| && SettledInTurn(order, remote, size, rs, t, i)
                     && res == Attempt(remote, size, rs, i).final[t])
        || ((forall i :: 0 <= i < |remote| ==> t !in Attempt(remote, size, rs, i).final) && res == unreached))
  }

  lemma {:induction false} EndpointsLength(mxs: seq<Mx>)
    ensures |Endpoints(mxs)| == |mxs|
  {
    if mxs != [] { EndpointsLength(mxs[..|mxs| - 1]); }
  }

  /** A recipient that host `i` settles was offered to every host before it, and settled by none. */
  lemma {:induction false} OfferedBefore(remote: seq<Host>, size: nat, rs: seq<string>, t: string, j: nat, i: nat)
    requires NoDup(rs) && j < i < |remote| && t in Attempt(remote, size, rs, i).final
    ensures t in Pending(remote, size, rs, j) && t !in Attempt(remote, size, rs, j).final
  {
    StillPending(remote, size, rs, t, j, i);
    OneHost(remote, size, rs, j, t);
    if t in Attempt(remote, size, rs, j).final { SettledStaysOut(remote, size, rs, t, j, i); }
  }

  lemma {:induction false} StillPending(remote: seq<Host>, size: nat, rs: seq<string>, t: string, j: nat, i: nat)
    requires NoDup(rs) && j <= i < |remote| && t in Attempt(remote, size, rs, i).final
    ensures t in Pending(remote, size, rs, i) && t in Pending(remote, size, rs, j)
    decreases i - j
  {
    OneHost(remote, size, rs, i, t);
    if j < i { StillPending(remote, size, rs, t, j + 1, i); OneHost(remote, size, rs, j, t); }
  }
}
