/** What outbound delivery guarantees against every behaviour of the remote hosts. */
module OutboundTheorems {
  import opened GoStrings
  import opened Outbound

  /** The session got as far as RCPT. */
  predicate AsksRecipients(h: Host, size: nat) {
    Opened(h).Some? && (Opened(h).value <= 0 || size <= Opened(h).value) && Is(h.mail, 250)
  }

  /** What host `h` decides about the recipient at position `p` of its list, read off the replies
      of the conversation; `None` leaves the recipient to the next host. */
  function Verdict(h: Host, size: nat, p: nat): Option<Delivery> {
    if AsksRecipients(h, size) then DataVerdict(h, h.rcpt(p))
    else if Opened(h).None? then None
    else if Opened(h).value > 0 && size > Opened(h).value then Some(TOO_LARGE)
    else Rejection(h.mail)
  }

  /** The part of the verdict that DATA decides, for a recipient with this RCPT reply. */
  function DataVerdict(h: Host, reply: Reply): Option<Delivery> {
    if !Is(reply, 250) then Rejection(reply)
    else if !Is(h.data, 354) || !h.bodySent then None
    else if Is(h.end, 250) then Some(Delivery(true, Flatten(reply)))
    else Rejection(h.end)
  }

  function Rejection(r: Reply): Option<Delivery> {
    if Permanent(r) then Some(Delivery(false, Flatten(r))) else None
  }

  /** The host took the sender, the recipient at position `p`, and the message itself. */
  predicate Took(h: Host, size: nat, p: nat) {
    AsksRecipients(h, size) && Is(h.rcpt(p), 250) && Is(h.data, 354) && h.bodySent && Is(h.end, 250)
  }

  // ----- the RCPT loop -----

  predicate Transient(r: Reply) { !Is(r, 250) && !Permanent(r) }

  /** Nobody is dropped and nobody is invented. */
  lemma {:induction false} RcptConserves(h: Host, rs: seq<string>, r: string)
    ensures var s := RcptPhase(h, rs); r in rs <==> r in s.accepted || r in s.final || r in s.retry
  {
    if rs != [] {
      var n := |rs| - 1;
      RcptConserves(h, rs[..n], r);
      assert rs == rs[..n] + [rs[n]];
    }
  }

  /** Each recipient lands where its own reply sends it. */
  lemma {:induction false} RcptLands(h: Host, rs: seq<string>, p: nat)
    requires p < |rs|
    ensures var s := RcptPhase(h, rs);
            && (Is(h.rcpt(p), 250) ==> rs[p] in s.accepted)
            && (Permanent(h.rcpt(p)) ==> rs[p] in s.final)
            && (Transient(h.rcpt(p)) ==> rs[p] in s.retry)
  {
    var n := |rs| - 1;
    if p < n { RcptLands(h, rs[..n], p); }
  }

  /** Distinct recipients are kept apart. */
  lemma {:induction false} RcptPartition(h: Host, rs: seq<string>)
    requires NoDup(rs)
    ensures var s := RcptPhase(h, rs);
            && NoDup(s.accepted) && NoDup(s.retry)
            && (forall r :: r in s.accepted ==> r !in s.retry && r !in s.final)
            && (forall r :: r in s.retry ==> r !in s.final)
  {
    if rs != [] {
      var n := |rs| - 1;
      RcptPartition(h, rs[..n]);
      RcptConserves(h, rs[..n], rs[n]);
      assert rs[n] !in rs[..n];
    }
  }

  /** And each keeps its own reply. */
  lemma {:induction false} RcptOwnReply(h: Host, rs: seq<string>, p: nat)
    requires NoDup(rs) && p < |rs|
    ensures var s := RcptPhase(h, rs);
            && (Is(h.rcpt(p), 250) ==> rs[p] in s.replies && s.replies[rs[p]] == Flatten(h.rcpt(p)))
            && (Permanent(h.rcpt(p)) ==> rs[p] in s.final && s.final[rs[p]] == Delivery(false, Flatten(h.rcpt(p))))
  {
    var n := |rs| - 1;
    if p < n { RcptOwnReply(h, rs[..n], p); }
  }

  // ----- one host -----

  lemma TryHostConserves(h: Host, size: nat, rs: seq<string>, r: string)
    ensures var o := TryHost(h, size, rs); r in rs <==> r in o.final || r in o.retry
  {
    RcptConserves(h, rs, r);
    assert var s := RcptPhase(h, rs);
           r in s.accepted || r in s.final || r in s.retry <==> r in Conclude(h, s).final || r in Conclude(h, s).retry;
  }

  lemma NoDupConcat(a: seq<string>, b: seq<string>)
    requires NoDup(a) && NoDup(b) && forall r :: r in a ==> r !in b
    ensures NoDup(a + b)
  {
    forall i, j | 0 <= i < j < |a + b| ensures (a + b)[i] != (a + b)[j] {
      if i < |a| <= j { assert a[i] in a && b[j - |a|] in b; }
    }
  }

  lemma ConcludePartition(h: Host, s: Rcpts)
    requires NoDup(s.accepted) && NoDup(s.retry)
    requires forall r :: r in s.accepted ==> r in s.replies && r !in s.retry && r !in s.final
    requires forall r :: r in s.retry ==> r !in s.final
    ensures var o := Conclude(h, s); NoDup(o.retry) && forall r :: r in o.retry ==> r !in o.final
  {
    NoDupConcat(s.accepted, s.retry);
  }

  lemma TryHostPartition(h: Host, size: nat, rs: seq<string>)
    requires NoDup(rs)
    ensures var o := TryHost(h, size, rs); NoDup(o.retry) && forall r :: r in o.retry ==> r !in o.final
  {
    RcptPartition(h, rs);
    ConcludePartition(h, RcptPhase(h, rs));
  }

  lemma ConcludeIsVerdict(h: Host, s: Rcpts, r: string, reply: Reply)
    requires forall a :: a in s.accepted ==> a in s.replies
    requires r in s.accepted <==> Is(reply, 250)
    requires r in s.final <==> Permanent(reply)
    requires r in s.retry <==> Transient(reply)
    requires Is(reply, 250) ==> s.replies[r] == Flatten(reply)
    requires Permanent(reply) ==> s.final[r] == Delivery(false, Flatten(reply))
    ensures var o, v := Conclude(h, s), DataVerdict(h, reply);
            && (v.Some? <==> r in o.final) && (v.None? <==> r in o.retry)
            && (v.Some? ==> o.final[r] == v.value)
  {
  }

  /** A host that never asks about recipients treats them all alike. */
  lemma EarlyVerdict(h: Host, size: nat, rs: seq<string>, p: nat)
    requires p < |rs| && !AsksRecipients(h, size)
    ensures var o, v := TryHost(h, size, rs), Verdict(h, size, p);
            o == if v.Some? then Outcome(All(rs, v.value), [], false) else Outcome(map[], rs, false)
  {
  }

  /** The outcome of a host is its verdict, recipient by recipient. */
  lemma TryHostIsVerdict(h: Host, size: nat, rs: seq<string>, p: nat)
    requires NoDup(rs) && p < |rs|
    ensures var o, v := TryHost(h, size, rs), Verdict(h, size, p);
            && (v.Some? <==> rs[p] in o.final) && (v.None? <==> rs[p] in o.retry)
            && (v.Some? ==> o.final[rs[p]] == v.value)
  {
    if AsksRecipients(h, size) {
      RcptLands(h, rs, p);
      RcptOwnReply(h, rs, p);
      RcptPartition(h, rs);
      ConcludeIsVerdict(h, RcptPhase(h, rs), rs[p], h.rcpt(p));
    } else {
      EarlyVerdict(h, size, rs, p);
    }
  }

  // ----- all hosts -----

  /** Every distinct recipient gets one result, whatever the hosts do. */
  lemma DeliverConserves(domain: string, hosts: seq<Host>, size: nat, rs: seq<string>)
    ensures Deliver(domain, hosts, size, rs).Keys == Elems(rs)
  {
    forall r: string ensures r in Deliver(domain, hosts, size, rs) <==> r in rs {
      SettledConserves(hosts, size, rs, |hosts|, r);
    }
  }

  lemma {:induction false} SettledConserves(hosts: seq<Host>, size: nat, rs: seq<string>, i: nat, r: string)
    requires i <= |hosts|
    ensures r in rs <==> r in Settled(hosts, size, rs, i) || r in Pending(hosts, size, rs, i)
  {
    if i > 0 {
      SettledConserves(hosts, size, rs, i - 1, r);
      TryHostConserves(hosts[i - 1], size, Pending(hosts, size, rs, i - 1), r);
    }
  }

  /** The first definitive outcome stands: once a host settles a recipient no later host is
      offered it, its result is that host's, and a recipient nobody settles gets the 421 line. */
  ghost predicate FirstOutcomeStands(domain: string, hosts: seq<Host>, size: nat, rs: seq<string>)
  {
    var results := Deliver(domain, hosts, size, rs);
    forall r :: r in rs ==>
      && r in results
      && (forall i, j :: 0 <= i < j <= |hosts| && r in Attempt(hosts, size, rs, i).final ==>
            r !in Pending(hosts, size, rs, j))
      && (forall i :: 0 <= i < |hosts| && r in Attempt(hosts, size, rs, i).final ==>
            results[r] == Attempt(hosts, size, rs, i).final[r])
      && ((forall i :: 0 <= i < |hosts| ==> r !in Attempt(hosts, size, rs, i).final)
          ==> results[r] == Unreached(domain))
  }

  lemma {:induction false} PendingDistinct(hosts: seq<Host>, size: nat, rs: seq<string>, i: nat)
    requires NoDup(rs) && i <= |hosts|
    ensures NoDup(Pending(hosts, size, rs, i))
  {
    if i > 0 {
      PendingDistinct(hosts, size, rs, i - 1);
      TryHostPartition(hosts[i - 1], size, Pending(hosts, size, rs, i - 1));
    }
  }

  /** What host `i` does to one recipient among distinct ones. */
  lemma OneHost(hosts: seq<Host>, size: nat, rs: seq<string>, i: nat, r: string)
    requires NoDup(rs) && i < |hosts|
    ensures r in Pending(hosts, size, rs, i) <==>
            r in Attempt(hosts, size, rs, i).final || r in Pending(hosts, size, rs, i + 1)
    ensures r in Attempt(hosts, size, rs, i).final ==> r !in Pending(hosts, size, rs, i + 1)
  {
    var before := Pending(hosts, size, rs, i);
    PendingDistinct(hosts, size, rs, i);
    TryHostConserves(hosts[i], size, before, r);
    TryHostPartition(hosts[i], size, before);
  }

  lemma {:induction false} SettledStaysOut(hosts: seq<Host>, size: nat, rs: seq<string>, r: string, i: nat, j: nat)
    requires NoDup(rs) && i < j <= |hosts| && r in Attempt(hosts, size, rs, i).final
    ensures r !in Pending(hosts, size, rs, j)
    ensures r in Settled(hosts, size, rs, j) && Settled(hosts, size, rs, j)[r] == Attempt(hosts, size, rs, i).final[r]
  {
    OneHost(hosts, size, rs, j - 1, r);
    if i + 1 < j { SettledStaysOut(hosts, size, rs, r, i, j - 1); }
  }

  lemma {:induction false} UnsettledIsPending(hosts: seq<Host>, size: nat, rs: seq<string>, r: string, j: nat)
    requires j <= |hosts| && r in rs && forall i :: 0 <= i < j ==> r !in Attempt(hosts, size, rs, i).final
    ensures r in Pending(hosts, size, rs, j) && r !in Settled(hosts, size, rs, j)
  {
    if j > 0 {
      UnsettledIsPending(hosts, size, rs, r, j - 1);
      TryHostConserves(hosts[j - 1], size, Pending(hosts, size, rs, j - 1), r);
    }
  }

  lemma FirstOutcome(domain: string, hosts: seq<Host>, size: nat, rs: seq<string>)
    requires NoDup(rs)
    ensures FirstOutcomeStands(domain, hosts, size, rs)
  {
    forall r | r in rs
      ensures r in Deliver(domain, hosts, size, rs)
      ensures forall i, j :: 0 <= i < j <= |hosts| && r in Attempt(hosts, size, rs, i).final ==>
                r !in Pending(hosts, size, rs, j)
      ensures forall i :: 0 <= i < |hosts| && r in Attempt(hosts, size, rs, i).final ==>
                Deliver(domain, hosts, size, rs)[r] == Attempt(hosts, size, rs, i).final[r]
      ensures (forall i :: 0 <= i < |hosts| ==> r !in Attempt(hosts, size, rs, i).final) ==>
                Deliver(domain, hosts, size, rs)[r] == Unreached(domain)
    {
      DeliverConserves(domain, hosts, size, rs);
      assert r in Elems(rs);
      forall i, j | 0 <= i < j <= |hosts| && r in Attempt(hosts, size, rs, i).final
        ensures r !in Pending(hosts, size, rs, j)
      {
        SettledStaysOut(hosts, size, rs, r, i, j);
      }
      forall i | 0 <= i < |hosts| && r in Attempt(hosts, size, rs, i).final
        ensures Deliver(domain, hosts, size, rs)[r] == Attempt(hosts, size, rs, i).final[r]
      {
        SettledStaysOut(hosts, size, rs, r, i, |hosts|);
      }
      if forall i :: 0 <= i < |hosts| ==> r !in Attempt(hosts, size, rs, i).final {
        UnsettledIsPending(hosts, size, rs, r, |hosts|);
      }
    }
  }

  /** Some host was offered the recipient and took it. */
  ghost predicate Taken(hosts: seq<Host>, size: nat, rs: seq<string>, r: string) {
    exists i, p :: 0 <= i < |hosts| && 0 <= p < |Pending(hosts, size, rs, i)|
                   && Pending(hosts, size, rs, i)[p] == r && Took(hosts[i], size, p)
  }

  /** Nothing is reported delivered at RCPT, and what is accepted there was answered 250. */
  lemma {:induction false} RcptAccepts(h: Host, rs: seq<string>, r: string)
    ensures var s := RcptPhase(h, rs);
            && (r in s.final ==> !s.final[r].delivered)
            && (r in s.accepted ==> exists p :: 0 <= p < |rs| && rs[p] == r && Is(h.rcpt(p), 250))
  {
    if rs != [] {
      var n := |rs| - 1;
      RcptAccepts(h, rs[..n], r);
      if r in RcptPhase(h, rs[..n]).accepted {
        var p :| 0 <= p < n && rs[..n][p] == r && Is(h.rcpt(p), 250);
        assert rs[p] == r;
      }
    }
  }

  /** A host that reports a recipient delivered took it, repeated or not. */
  lemma TryHostDelivers(h: Host, size: nat, rs: seq<string>, r: string)
    requires r in TryHost(h, size, rs).final && TryHost(h, size, rs).final[r].delivered
    ensures exists p :: 0 <= p < |rs| && rs[p] == r && Took(h, size, p)
  {
    if AsksRecipients(h, size) {
      RcptAccepts(h, rs, r);
      assert r in RcptPhase(h, rs).accepted;
      var p :| 0 <= p < |rs| && rs[p] == r && Is(h.rcpt(p), 250);
      assert Took(h, size, p);
    }
  }

  lemma {:induction false} SettledDelivered(hosts: seq<Host>, size: nat, rs: seq<string>, i: nat, r: string)
    requires i <= |hosts| && r in Settled(hosts, size, rs, i) && Settled(hosts, size, rs, i)[r].delivered
    ensures Taken(hosts, size, rs, r)
  {
    if r in Attempt(hosts, size, rs, i - 1).final {
      TryHostDelivers(hosts[i - 1], size, Pending(hosts, size, rs, i - 1), r);
    } else {
      SettledDelivered(hosts, size, rs, i - 1, r);
    }
  }

  /** A recipient reported delivered was taken by some host it was offered to; among distinct
      recipients one that was taken is also reported so. */
  lemma DeliveredExactly(domain: string, hosts: seq<Host>, size: nat, rs: seq<string>, r: string)
    requires r in rs
    ensures r in Deliver(domain, hosts, size, rs)
    ensures Deliver(domain, hosts, size, rs)[r].delivered ==> Taken(hosts, size, rs, r)
    ensures NoDup(rs) ==> (Deliver(domain, hosts, size, rs)[r].delivered <==> Taken(hosts, size, rs, r))
  {
    DeliverConserves(domain, hosts, size, rs);
    assert r in Elems(rs);
    if Deliver(domain, hosts, size, rs)[r].delivered { SettledDelivered(hosts, size, rs, |hosts|, r); }
    if NoDup(rs) && Taken(hosts, size, rs, r) { TakenIsReported(domain, hosts, size, rs, r); }
  }

  lemma TakenIsReported(domain: string, hosts: seq<Host>, size: nat, rs: seq<string>, r: string)
    requires NoDup(rs) && r in rs && Taken(hosts, size, rs, r)
    ensures r in Deliver(domain, hosts, size, rs) && Deliver(domain, hosts, size, rs)[r].delivered
  {
    var i, p :| 0 <= i < |hosts| && 0 <= p < |Pending(hosts, size, rs, i)|
                && Pending(hosts, size, rs, i)[p] == r && Took(hosts[i], size, p);
    PendingDistinct(hosts, size, rs, i);
    TryHostIsVerdict(hosts[i], size, Pending(hosts, size, rs, i), p);
    assert r in Attempt(hosts, size, rs, i).final && Attempt(hosts, size, rs, i).final[r].delivered;
    FirstOutcome(domain, hosts, size, rs);
  }

  /** A host that takes the message for the recipient at position `p` and answers 450 to all others. */
  function Greedy(p: nat): Host {
    Picky(p).(rcpt := (i: nat) => if i == p then Line(250, "") else Line(450, ""))
  }

  /** A repeated recipient can get the message and be reported as not reached. */
  lemma TakenUnreported(domain: string, size: nat, rs: seq<string>, a: nat, b: nat)
    requires a < b < |rs| && rs[a] == rs[b]
    ensures var hosts := [Greedy(a)];
            && Taken(hosts, size, rs, rs[a])
            && rs[a] in Deliver(domain, hosts, size, rs) && !Deliver(domain, hosts, size, rs)[rs[a]].delivered
  {
    var h, hosts := Greedy(a), [Greedy(a)];
    RcptLands(h, rs, a);
    RcptLands(h, rs, b);
    assert Pending(hosts, size, rs, 0) == rs && Took(hosts[0], size, a);
    assert Attempt(hosts, size, rs, 0) == TryHost(h, size, rs);
    assert rs[b] in Pending(hosts, size, rs, |hosts|);
  }

  /** Every recipient that got the message is reported delivered, against every behaviour of every list
      of hosts, exactly when the recipients are distinct. */
  lemma TakenReportedExactly(domain: string, rs: seq<string>)
    ensures NoDup(rs) <==>
            forall hosts, size, r :: r in rs && Taken(hosts, size, rs, r) ==>
              r in Deliver(domain, hosts, size, rs) && Deliver(domain, hosts, size, rs)[r].delivered
  {
    if NoDup(rs) {
      forall hosts, size: nat, r | r in rs && Taken(hosts, size, rs, r)
        ensures r in Deliver(domain, hosts, size, rs) && Deliver(domain, hosts, size, rs)[r].delivered
      {
        TakenIsReported(domain, hosts, size, rs, r);
      }
    } else {
      var a, b :| 0 <= a < b < |rs| && rs[a] == rs[b];
      TakenUnreported(domain, 0, rs, a, b);
    }
  }

  /** A host that answers 550 to the recipient at position `p` and 450 to all others. */
  function Picky(p: nat): Host {
    Host(true, Line(220, ""), Line(250, ""), 0, NotOffered, Line(250, ""),
         (i: nat) => if i == p then Line(550, "") else Line(450, ""), Line(354, ""), true, Line(250, ""))
  }

  /** A repeated recipient can be settled and retried at once. */
  lemma RepeatedRecipient(domain: string, size: nat, rs: seq<string>, a: nat, b: nat)
    requires a < b < |rs| && rs[a] == rs[b]
    ensures !FirstOutcomeStands(domain, [Picky(a)], size, rs)
  {
    var h, hosts := Picky(a), [Picky(a)];
    RcptLands(h, rs, a);
    RcptLands(h, rs, b);
    NobodyAccepted(h, rs);
    assert Attempt(hosts, size, rs, 0) == TryHost(h, size, rs);
    assert rs[a] in rs && rs[a] in Attempt(hosts, size, rs, 0).final;
    assert rs[a] in Pending(hosts, size, rs, |hosts|);
  }

  lemma {:induction false} NobodyAccepted(h: Host, rs: seq<string>)
    requires forall i: nat :: !Is(h.rcpt(i), 250)
    ensures RcptPhase(h, rs).accepted == []
  {
    if rs != [] { NobodyAccepted(h, rs[..|rs| - 1]); }
  }

  /** The first outcome stands against every behaviour of every list of hosts exactly when the
      recipients are distinct. */
  lemma FirstOutcomeExactly(domain: string, rs: seq<string>)
    ensures NoDup(rs) <==> forall hosts, size :: FirstOutcomeStands(domain, hosts, size, rs)
  {
    if NoDup(rs) {
      forall hosts, size: nat ensures FirstOutcomeStands(domain, hosts, size, rs) {
        FirstOutcome(domain, hosts, size, rs);
      }
    } else {
      var a, b :| 0 <= a < b < |rs| && rs[a] == rs[b];
      RepeatedRecipient(domain, 0, rs, a, b);
    }
  }
}
