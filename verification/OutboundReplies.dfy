/** What comes of a recipient, read off the replies of the hosts alone (smtp/outbound.go). */
module OutboundReplies {
  import opened GoStrings
  import opened MailIds
  import opened Outbound
  import opened OutboundTheorems
  import Crlf

  ghost predicate Answers(r: Reply, code: nat) { r.Line? && r.code == code }

  ghost predicate Refuses(r: Reply) { r.Line? && 500 <= r.code <= 599 }

  /** Neither the code hoped for nor a permanent refusal: the next host may do better. */
  ghost predicate Defers(r: Reply, code: nat) { !Answers(r, code) && !Refuses(r) }

  /** The session gets as far as MAIL, with `limit` as the announced size: in plain text when STARTTLS
      is not offered or turned down, else inside TLS. */
  ghost predicate Ready(h: Host, limit: int) {
    && h.dials && Answers(h.greeting, 220) && Answers(h.ehlo, 250)
    && match h.startTls
       case NotOffered => limit == h.sizeLimit
       case Declined => limit == h.sizeLimit
       case Taken(handshake, ehlo, sizeLimit) => handshake && Answers(ehlo, 250) && limit == sizeLimit
  }

  ghost predicate TooLarge(limit: int, size: nat) { 0 < limit < size }

  /** How a reply reads in a result: code and text on one line. */
  ghost predicate OnOneLine(r: Reply, s: string) {
    && r.Line? && |s| == |Dec(r.code)| + 1 + |r.text| && s[..|Dec(r.code)| + 1] == Dec(r.code) + " "
    && forall i :: 0 <= i < |r.text| ==> s[|Dec(r.code)| + 1 + i] == if r.text[i] == '\n' then ' ' else r.text[i]
  }

  lemma FlattenExactly(r: Reply)
    requires r.Line?
    ensures OnOneLine(r, Flatten(r))
  {
    ReplacedOneByOne(r.text);
  }

  lemma {:induction false} ReplacedOneByOne(text: string)
    ensures var s := Crlf.ReplaceAll(text, "\n", " ");
            |s| == |text| && forall i :: 0 <= i < |text| ==> s[i] == if text[i] == '\n' then ' ' else text[i]
  {
    if text != [] {
      assert HasPrefix(text, "\n") <==> text[0] == '\n';
      ReplacedOneByOne(text[1..]);
    }
  }

  // ----- one host and the rest -----

  lemma {:induction false} ShiftPending(h: Host, rest: seq<Host>, size: nat, rs: seq<string>, i: nat)
    requires i <= |rest|
    ensures Pending([h] + rest, size, rs, i + 1) == Pending(rest, size, TryHost(h, size, rs).retry, i)
  {
    if i > 0 {
      ShiftPending(h, rest, size, rs, i - 1);
      assert ([h] + rest)[i] == rest[i - 1];
    }
  }

  lemma ShiftAttempt(h: Host, rest: seq<Host>, size: nat, rs: seq<string>, i: nat)
    requires i < |rest|
    ensures Attempt([h] + rest, size, rs, i + 1) == Attempt(rest, size, TryHost(h, size, rs).retry, i)
  {
    ShiftPending(h, rest, size, rs, i);
    assert ([h] + rest)[i + 1] == rest[i];
  }

  lemma {:induction false} ShiftSettled(h: Host, rest: seq<Host>, size: nat, rs: seq<string>, i: nat)
    requires i <= |rest|
    ensures Settled([h] + rest, size, rs, i + 1)
            == TryHost(h, size, rs).final + Settled(rest, size, TryHost(h, size, rs).retry, i)
  {
    var hosts := [h] + rest;
    if i == 0 {
      assert Attempt(hosts, size, rs, 0) == TryHost(h, size, rs);
      assert Settled(hosts, size, rs, 0) == map[];
      MapSum(map[], TryHost(h, size, rs).final, map[]);
    } else {
      ShiftSettled(h, rest, size, rs, i - 1);
      ShiftAttempt(h, rest, size, rs, i - 1);
      var left := TryHost(h, size, rs).retry;
      MapSum(TryHost(h, size, rs).final, Settled(rest, size, left, i - 1), Attempt(rest, size, left, i - 1).final);
    }
  }

  lemma MapSum(a: map<string, Delivery>, b: map<string, Delivery>, c: map<string, Delivery>)
    ensures (a + b) + c == a + (b + c)
    ensures a == map[] && c == map[] ==> a + b == b + c
  {
  }

  /** Delivery over a list of hosts is the first host's outcome, and delivery of what it leaves over the
      others. */
  lemma DeliverFirst(domain: string, h: Host, rest: seq<Host>, size: nat, rs: seq<string>)
    ensures Deliver(domain, [h] + rest, size, rs)
            == TryHost(h, size, rs).final + Deliver(domain, rest, size, TryHost(h, size, rs).retry)
  {
    var o := TryHost(h, size, rs);
    ShiftPending(h, rest, size, rs, |rest|);
    ShiftSettled(h, rest, size, rs, |rest|);
    MapSum(o.final, Settled(rest, size, o.retry, |rest|), All(Pending(rest, size, o.retry, |rest|), Unreached(domain)));
  }

  /** A recipient that the first host settles is done, one it leaves is up to the others. */
  lemma FirstHostDecides(domain: string, h: Host, rest: seq<Host>, size: nat, rs: seq<string>, p: nat)
    requires NoDup(rs) && p < |rs|
    ensures var r, v := Deliver(domain, [h] + rest, size, rs), Verdict(h, size, p);
            var left := TryHost(h, size, rs).retry;
            && rs[p] in r
            && (v.Some? ==> r[rs[p]] == v.value && rs[p] !in left)
            && (v.None? ==> rs[p] in left && rs[p] in Deliver(domain, rest, size, left)
                            && r[rs[p]] == Deliver(domain, rest, size, left)[rs[p]])
  {
    var left := TryHost(h, size, rs).retry;
    TryHostIsVerdict(h, size, rs, p);
    DeliverFirst(domain, h, rest, size, rs);
    DeliverConserves(domain, rest, size, left);
    assert rs[p] in Deliver(domain, rest, size, left) <==> rs[p] in Elems(left);
  }

  /** The host goes on to MAIL. */
  ghost predicate TakesMail(h: Host, size: nat) {
    (exists limit :: Ready(h, limit) && !TooLarge(limit, size)) && Answers(h.mail, 250)
  }

  /** Delivered by the first host, in plain text or inside TLS, with its reply to RCPT. */
  lemma FirstHostDelivers(domain: string, h: Host, rest: seq<Host>, size: nat, rs: seq<string>, p: nat)
    requires NoDup(rs) && p < |rs| && TakesMail(h, size)
    requires Answers(h.rcpt(p), 250) && Answers(h.data, 354) && h.bodySent && Answers(h.end, 250)
    ensures var r := Deliver(domain, [h] + rest, size, rs);
            rs[p] in r && r[rs[p]].delivered && OnOneLine(h.rcpt(p), r[rs[p]].reply)
  {
    FirstHostDecides(domain, h, rest, size, rs, p);
    FlattenExactly(h.rcpt(p));
  }

  /** The reply with which the first host refuses the recipient for good: to MAIL, to its RCPT, or at the
      end of the data. */
  ghost predicate RefusedBy(h: Host, size: nat, p: nat, reply: Reply) {
    && Refuses(reply)
    && (((exists limit :: Ready(h, limit) && !TooLarge(limit, size)) && reply == h.mail)
        || (TakesMail(h, size) && reply == h.rcpt(p))
        || (TakesMail(h, size) && Answers(h.rcpt(p), 250) && Answers(h.data, 354) && h.bodySent && reply == h.end))
  }

  lemma RefusalIsVerdict(h: Host, size: nat, p: nat, reply: Reply)
    requires RefusedBy(h, size, p, reply)
    ensures Verdict(h, size, p) == Some(Delivery(false, Flatten(reply)))
  {
  }

  lemma FirstHostRefuses(domain: string, h: Host, rest: seq<Host>, size: nat, rs: seq<string>, p: nat, reply: Reply)
    requires NoDup(rs) && p < |rs| && RefusedBy(h, size, p, reply)
    ensures var r := Deliver(domain, [h] + rest, size, rs);
            rs[p] in r && !r[rs[p]].delivered && OnOneLine(reply, r[rs[p]].reply)
  {
    RefusalIsVerdict(h, size, p, reply);
    FirstHostDecides(domain, h, rest, size, rs, p);
    FlattenExactly(reply);
  }

  /** A message over the announced size is refused without being offered. */
  lemma FirstHostTooSmall(domain: string, h: Host, rest: seq<Host>, size: nat, rs: seq<string>, p: nat, limit: int)
    requires NoDup(rs) && p < |rs| && Ready(h, limit) && TooLarge(limit, size)
    ensures var r := Deliver(domain, [h] + rest, size, rs);
            rs[p] in r
            && r[rs[p]] == Delivery(false, "552 5.3.4 Message size exceeds fixed maximum message size")
  {
    FirstHostDecides(domain, h, rest, size, rs, p);
  }

  /** A host that cannot be talked to, or that defers MAIL, might as well not be there. */
  lemma FirstHostPassedOver(domain: string, h: Host, rest: seq<Host>, size: nat, rs: seq<string>)
    requires (forall limit :: !Ready(h, limit))
             || ((exists limit :: Ready(h, limit) && !TooLarge(limit, size)) && Defers(h.mail, 250))
    ensures Deliver(domain, [h] + rest, size, rs) == Deliver(domain, rest, size, rs)
  {
    NotReadyNotOpen(h);
    assert TryHost(h, size, rs) == Outcome(map[], rs, false);
    DeliverFirst(domain, h, rest, size, rs);
  }

  lemma NotReadyNotOpen(h: Host)
    ensures forall limit :: Opened(h) == Some(limit) <==> Ready(h, limit)
  {
  }

  /** A recipient that is deferred, or accepted before the data fails, is left to the other hosts. */
  lemma FirstHostDefers(domain: string, h: Host, rest: seq<Host>, size: nat, rs: seq<string>, p: nat)
    requires NoDup(rs) && p < |rs| && TakesMail(h, size)
    requires Defers(h.rcpt(p), 250)
             || (Answers(h.rcpt(p), 250) && (!Answers(h.data, 354) || !h.bodySent || Defers(h.end, 250)))
    ensures var left := TryHost(h, size, rs).retry;
            var r, later := Deliver(domain, [h] + rest, size, rs), Deliver(domain, rest, size, left);
            rs[p] in left && rs[p] in later && rs[p] in r && r[rs[p]] == later[rs[p]]
  {
    FirstHostDecides(domain, h, rest, size, rs, p);
  }

  /** With no host left, a recipient gets the 421 line. */
  lemma NoHostLeft(domain: string, size: nat, rs: seq<string>, r: string)
    requires r in rs
    ensures r in Deliver(domain, [], size, rs)
    ensures Deliver(domain, [], size, rs)[r] == Delivery(false, "421 4.4.4 All MX hosts for " + domain + " failed")
  {
  }
}
