/** Outbound delivery to MX hosts (smtp/outbound.go; section 5.1 of RFC 5321). The remote hosts
    are arbitrary: a `Host` fixes what one of them answers at every point of the conversation. */
module Outbound {
  import opened GoStrings
  import opened MailIds
  import Crlf

  datatype Delivery = Delivery(delivered: bool, reply: string)

  /** A reply line, or a connection that gave none. */
  datatype Reply = Line(code: nat, text: string) | Broken

  /** How STARTTLS went: not announced, turned down, or taken up; in the last case `ehlo` and
      `sizeLimit` are those of the session inside TLS. */
  datatype StartTls = NotOffered | Declined | Taken(handshake: bool, ehlo: Reply, sizeLimit: int)

  datatype Host = Host(
    dials: bool, greeting: Reply, ehlo: Reply, sizeLimit: int, startTls: StartTls,
    mail: Reply, rcpt: nat -> Reply, data: Reply, bodySent: bool, end: Reply)

  /** What one host settled, what is left for the next, and whether the message was taken. */
  datatype Outcome = Outcome(final: map<string, Delivery>, retry: seq<string>, delivered: bool)

  predicate Is(r: Reply, code: nat) { r.Line? && r.code == code }

  predicate Permanent(r: Reply) { r.Line? && 500 <= r.code < 600 }

  function Flatten(r: Reply): string {
    match r
    case Broken => "0 "
    case Line(code, text) => Dec(code) + " " + Crlf.ReplaceAll(text, "\n", " ")
  }

  const TOO_LARGE := Delivery(false, "552 5.3.4 Message size exceeds fixed maximum message size")

  function Unreached(domain: string): Delivery { Delivery(false, "421 4.4.4 All MX hosts for " + domain + " failed") }

  /** The announced size limit of a session ready for MAIL (0 for none); `None` when the session
      could not be set up. */
  function Opened(h: Host): Option<int> {
    if !h.dials || !Is(h.greeting, 220) || !Is(h.ehlo, 250) then None
    else match h.startTls
      case Taken(handshake, ehlo, sizeLimit) => if handshake && Is(ehlo, 250) then Some(sizeLimit) else None
      case _ => Some(h.sizeLimit)
  }

  // ----- one host: the specification -----

  /** The state of the RCPT loop. */
  datatype Rcpts = Rcpts(
    accepted: seq<string>, replies: map<string, string>, final: map<string, Delivery>, retry: seq<string>)

  function RcptStep(s: Rcpts, r: string, reply: Reply): Rcpts {
    if Is(reply, 250) then s.(accepted := s.accepted + [r], replies := s.replies[r := Flatten(reply)])
    else if Permanent(reply) then s.(final := s.final[r := Delivery(false, Flatten(reply))])
    else s.(retry := s.retry + [r])
  }

  function RcptPhase(h: Host, rs: seq<string>): (s: Rcpts)
    ensures forall r :: r in s.accepted ==> r in s.replies
  {
    if rs == [] then Rcpts([], map[], map[], [])
    else RcptStep(RcptPhase(h, rs[..|rs| - 1]), rs[|rs| - 1], h.rcpt(|rs| - 1))
  }

  function All(rs: seq<string>, d: Delivery): map<string, Delivery> { map r | r in rs :: d }

  /** What follows the RCPT loop: DATA, the message and its reply. */
  function Conclude(h: Host, s: Rcpts): (o: Outcome)
    requires forall r :: r in s.accepted ==> r in s.replies
  {
    if s.accepted == [] then Outcome(s.final, s.retry, false)
    else if !Is(h.data, 354) || !h.bodySent then Outcome(s.final, s.accepted + s.retry, false)
    else if Is(h.end, 250) then
      Outcome(s.final + (map r | r in s.accepted :: Delivery(true, s.replies[r])), s.retry, true)
    else if Permanent(h.end) then
      Outcome(s.final + All(s.accepted, Delivery(false, Flatten(h.end))), s.retry, false)
    else Outcome(s.final, s.accepted + s.retry, false)
  }

  function TryHost(h: Host, size: nat, rs: seq<string>): (o: Outcome)
  {
    var limit := Opened(h);
    if limit.None? then Outcome(map[], rs, false)
    else if limit.value > 0 && size > limit.value then Outcome(All(rs, TOO_LARGE), [], false)
    else if Is(h.mail, 250) then Conclude(h, RcptPhase(h, rs))
    else if Permanent(h.mail) then Outcome(All(rs, Delivery(false, Flatten(h.mail))), [], false)
    else Outcome(map[], rs, false)
  }

  // ----- one host: the code -----

  method SettleAll(final: map<string, Delivery>, rs: seq<string>, d: Delivery) returns (r: map<string, Delivery>)
    ensures r == final + All(rs, d)
  {
    r := final;
    for i := 0 to |rs|
      invariant r == final + All(rs[..i], d)
    {
      r := r[rs[i] := d];
      assert rs[..i + 1] == rs[..i] + [rs[i]];
    }
    assert rs[..|rs|] == rs;
  }

  /** `size` is the length of the message as it goes on the wire. */
  method TryHostConversation(h: Host, size: nat, recipients: seq<string>) returns (o: Outcome)
    ensures o == TryHost(h, size, recipients)
  {
    var final: map<string, Delivery> := map[];
    var limit := Opened(h);
    if limit.None? {
      return Outcome(final, recipients, false);
    }
    if limit.value > 0 && size > limit.value {
      final := SettleAll(final, recipients, TOO_LARGE);
      return Outcome(final, [], false);
    }
    if !Is(h.mail, 250) {
      if Permanent(h.mail) {
        final := SettleAll(final, recipients, Delivery(false, Flatten(h.mail)));
        return Outcome(final, [], false);
      }
      return Outcome(final, recipients, false);
    }

    var accepted, rcptReply, retry;
    accepted, rcptReply, final, retry := AskRecipients(h, recipients);
    if |accepted| == 0 {
      return Outcome(final, retry, false);
    }
    if !Is(h.data, 354) || !h.bodySent {
      return Outcome(final, accepted + retry, false);
    }
    if Is(h.end, 250) {
      final := SettleAccepted(final, accepted, rcptReply);
      return Outcome(final, retry, true);
    }
    if Permanent(h.end) {
      final := SettleAll(final, accepted, Delivery(false, Flatten(h.end)));
      return Outcome(final, retry, false);
    }
    return Outcome(final, accepted + retry, false);
  }

  method AskRecipients(h: Host, recipients: seq<string>)
    returns (accepted: seq<string>, rcptReply: map<string, string>, final: map<string, Delivery>, retry: seq<string>)
    ensures Rcpts(accepted, rcptReply, final, retry) == RcptPhase(h, recipients)
  {
    accepted, rcptReply, final, retry := [], map[], map[], [];
    for i := 0 to |recipients|
      invariant Rcpts(accepted, rcptReply, final, retry) == RcptPhase(h, recipients[..i])
    {
      var rcpt, reply := recipients[i], h.rcpt(i);
      assert recipients[..i + 1][..i] == recipients[..i];
      if Is(reply, 250) {
        accepted, rcptReply := accepted + [rcpt], rcptReply[rcpt := Flatten(reply)];
        continue;
      }
      if Permanent(reply) {
        final := final[rcpt := Delivery(false, Flatten(reply))];
      } else {
        retry := retry + [rcpt];
      }
    }
    assert recipients[..|recipients|] == recipients;
  }

  method SettleAccepted(final: map<string, Delivery>, accepted: seq<string>, rcptReply: map<string, string>)
    returns (r: map<string, Delivery>)
    requires forall a :: a in accepted ==> a in rcptReply
    ensures r == final + map a | a in accepted :: Delivery(true, rcptReply[a])
  {
    r := final;
    for i := 0 to |accepted|
      invariant r == final + map a | a in accepted[..i] :: Delivery(true, rcptReply[a])
    {
      r := r[accepted[i] := Delivery(true, rcptReply[accepted[i]])];
      assert accepted[..i + 1] == accepted[..i] + [accepted[i]];
    }
    assert accepted[..|accepted|] == accepted;
  }

  // ----- all hosts of a domain -----

  /** The recipients still pending when host `i` is reached. */
  function Pending(hosts: seq<Host>, size: nat, rs: seq<string>, i: nat): seq<string>
    requires i <= |hosts|
    decreases i, 0
  {
    if i == 0 then rs else Attempt(hosts, size, rs, i - 1).retry
  }

  function Attempt(hosts: seq<Host>, size: nat, rs: seq<string>, i: nat): Outcome
    requires i < |hosts|
    decreases i, 1
  {
    TryHost(hosts[i], size, Pending(hosts, size, rs, i))
  }

  function Settled(hosts: seq<Host>, size: nat, rs: seq<string>, i: nat): map<string, Delivery>
    requires i <= |hosts|
  {
    if i == 0 then map[] else Settled(hosts, size, rs, i - 1) + Attempt(hosts, size, rs, i - 1).final
  }

  function Deliver(domain: string, hosts: seq<Host>, size: nat, rs: seq<string>): map<string, Delivery> {
    Settled(hosts, size, rs, |hosts|) + All(Pending(hosts, size, rs, |hosts|), Unreached(domain))
  }

  /** `live` is the number of hosts before the context is cancelled. */
  function Reached(hosts: seq<Host>, live: nat): seq<Host> { if live < |hosts| then hosts[..live] else hosts }

  method DeliverToDomain(domain: string, hosts: seq<Host>, live: nat, size: nat, recipients: seq<string>)
    returns (results: map<string, Delivery>)
    ensures results == Deliver(domain, hosts[..if live < |hosts| then live else |hosts|], size, recipients)
  {
    var usable := Reached(hosts, live);
    results := map[];
    var pending := recipients;
    var i := 0;
    while i < |usable| && pending != []
      invariant 0 <= i <= |usable|
      invariant pending == Pending(usable, size, recipients, i)
      invariant results == Settled(usable, size, recipients, i)
    {
      var o := TryHostConversation(usable[i], size, pending);
      assert o == Attempt(usable, size, recipients, i);
      results := results + o.final;
      pending := o.retry;
      i := i + 1;
    }
    if pending == [] { NothingPending(usable, size, recipients, i); }
    results := SettleAll(results, pending, Unreached(domain));
    assert hosts[..|hosts|] == hosts;
  }

  /** With nobody pending, further hosts would change nothing. */
  lemma {:induction false} NothingPending(hosts: seq<Host>, size: nat, rs: seq<string>, i: nat)
    requires i <= |hosts| && Pending(hosts, size, rs, i) == []
    ensures Pending(hosts, size, rs, |hosts|) == []
    ensures Settled(hosts, size, rs, |hosts|) == Settled(hosts, size, rs, i)
    decreases |hosts| - i
  {
    if i < |hosts| {
      assert Attempt(hosts, size, rs, i).final == map[];
      NothingPending(hosts, size, rs, i + 1);
    }
  }
}
