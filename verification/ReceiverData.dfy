/** The DATA command (smtp/receiver.go): which accounts a message goes to, what happens for each,
    and how the whole is answered. Stores, parser and Sieve are arbitrary. */
module ReceiverData {
  import opened GoStrings
  import opened SenderAuth
  import opened Receiver

  datatype Err = Smtp(code: nat) | Other

  /** The outcome of a recipient's Sieve script. */
  datatype Sieve = Sieve(reject: bool, discard: bool, fileInto: bool, redirect: bool)

  /** How one account's backends behave: the error of storing the blob, of parsing, and of creating
      the email, whether parsing gave an email, and the Sieve outcome if there is a script. */
  datatype Box = Box(put: Option<Err>, parse: Option<Err>, parsed: bool, sieve: Option<Sieve>, create: Option<Err>)

  datatype Message = Message(readable: bool, size: nat, verify: Option<Verdict>, calendar: bool, box: string -> Box)

  /** What DATA did besides replying: the accounts whose blob store kept the message, those that got
      an email, those whose script sent it on, and those whose calendar took the scheduling part, in
      order; the recipients relayed; and whether a trace header was added. */
  datatype Effects = Effects(
    blobs: seq<string>, stored: seq<string>, redirected: seq<string>, applied: seq<string>,
    external: seq<string>, header: bool)

  const NO_EFFECTS := Effects([], [], [], [], [], false)

  // ----- one account -----

  predicate Rejects(b: Box) { b.sieve.Some? && b.sieve.value.reject }

  predicate Discards(b: Box) { b.sieve.Some? && !b.sieve.value.reject && b.sieve.value.discard }

  /** The message is at hand as a stored, parsed email and the script lets it through. */
  predicate Deliverable(cfg: Config, b: Box) {
    !Rejects(b) && !Discards(b) && cfg.hasMail && b.parsed && cfg.hasBlobs && b.put.None?
  }

  /** The blob is stored before the script is asked. */
  predicate KeepsBlob(cfg: Config, b: Box) { cfg.hasBlobs && b.put.None? }

  predicate Redirects(cfg: Config, b: Box) { Deliverable(cfg, b) && b.sieve.Some? && b.sieve.value.redirect }

  /** A redirect without fileinto keeps no copy. */
  predicate Stores(cfg: Config, b: Box) {
    Deliverable(cfg, b) && (!Redirects(cfg, b) || b.sieve.value.fileInto) && b.create.None?
  }

  /** The redirected copy goes out. */
  predicate SendsOn(cfg: Config, b: Box) { Redirects(cfg, b) && cfg.outbound }

  predicate Delivers(cfg: Config, b: Box) { Discards(b) || Redirects(cfg, b) || Stores(cfg, b) }

  /** What an account puts on record when nothing is there yet: the first thing that goes wrong with the
      blob, the parser, the script or the mail store, in this order. */
  function FailureOf(cfg: Config, b: Box): Option<Err> {
    if !cfg.hasBlobs then Some(Other)
    else if b.put.Some? then b.put
    else if b.parse.Some? then b.parse
    else if !b.parsed then Some(Other)
    else if Rejects(b) then Some(Smtp(550))
    else if Discards(b) then None
    else if !cfg.hasMail then Some(Other)
    else if Redirects(cfg, b) && !b.sieve.value.fileInto then None
    else b.create
  }

  /** The code of the reply to a message that failed for this reason. */
  function CodeOf(e: Err): nat { match e case Smtp(code) => code case Other => 451 }

  /** A script's rejection of a message that could be stored and parsed is answered with 550, an error of
      the mail store with its own code or 451. */
  lemma CodesExactly(cfg: Config, b: Box)
    requires cfg.hasBlobs && b.put.None? && b.parse.None? && b.parsed
    ensures b.sieve.Some? && b.sieve.value.reject ==>
              FailureOf(cfg, b).Some? && CodeOf(FailureOf(cfg, b).value) == 550
    ensures b.sieve.None? && cfg.hasMail ==> FailureOf(cfg, b) == b.create
    ensures forall code :: CodeOf(Smtp(code)) == code
    ensures CodeOf(Other) == 451
  {
  }

  /** What came of one account; `goesOn` is false when the script ended the matter. */
  datatype Handling = Handling(
    delivered: bool, blob: bool, stored: bool, redirected: bool, failure: Option<Err>, goesOn: bool)

  method DeliverToAccount(cfg: Config, b: Box, earlier: Option<Err>) returns (h: Handling)
    ensures h.delivered == Delivers(cfg, b) && h.stored == Stores(cfg, b)
    ensures h.blob == KeepsBlob(cfg, b) && h.redirected == SendsOn(cfg, b)
    ensures Rejects(b) ==> !h.delivered && !h.stored && !h.redirected
    ensures h.goesOn == (!Rejects(b) && !Discards(b))
    ensures h.failure == if earlier.Some? then earlier else FailureOf(cfg, b)
    ensures !h.delivered ==> h.failure.Some?
  {
    var delivered, stored, redirected, failure := false, false, false, earlier;
    var blobStored := false;
    if !cfg.hasBlobs {
      failure := if failure.None? then Some(Other) else failure;
    } else if b.put.Some? {
      failure := if failure.None? then b.put else failure;
    } else {
      blobStored := true;
    }
    var email := b.parsed;
    if b.parse.Some? {
      failure := if failure.None? then b.parse else failure;
    } else if !email {
      failure := if failure.None? then Some(Other) else failure;
    }
    if b.sieve.Some? && b.sieve.value.reject {
      failure := if failure.None? then Some(Smtp(550)) else failure;
      return Handling(false, blobStored, false, false, failure, false);
    }
    if b.sieve.Some? && b.sieve.value.discard {
      return Handling(true, blobStored, false, false, failure, false);
    }
    if cfg.hasMail && email && blobStored {
      if b.sieve.Some? && b.sieve.value.fileInto {
      } else if b.sieve.Some? && b.sieve.value.redirect {
        email := false;
      }
      if b.sieve.Some? && b.sieve.value.redirect {
        redirected := cfg.outbound;
        delivered := true;
      }
      if email {
        if b.create.Some? {
          failure := if failure.None? then b.create else failure;
        } else {
          delivered, stored := true, true;
        }
      }
    } else if email && !blobStored {
    } else if email {
      failure := if failure.None? then Some(Other) else failure;
    }
    return Handling(delivered, blobStored, stored, redirected, failure, true);
  }

  // ----- the accounts -----

  ghost function Accounts(cfg: Config, to: seq<string>): set<string> {
    set r | r in to && cfg.resolver.Some? && !External(cfg, r) :: cfg.resolver.value(r).0
  }

  function Externals(cfg: Config, to: seq<string>): seq<string> {
    if to == [] then []
    else
      var r := to[|to| - 1];
      Externals(cfg, to[..|to| - 1]) + if External(cfg, r) then [r] else []
  }

  /** The target accounts: those of the local recipients, or with no recipient placed anywhere the
      fallback account, or the one derived from the first recipient. Empty drops the message. */
  ghost function Targets(cfg: Config, to: seq<string>): set<string> {
    var accounts := Accounts(cfg, to);
    if accounts != {} || Externals(cfg, to) != [] then accounts
    else if cfg.fallback != "" then {cfg.fallback}
    else if to != [] then {cfg.accountOf(to[0])}
    else {}
  }

  method PlaceRecipients(cfg: Config, to: seq<string>) returns (accounts: set<string>, external: seq<string>)
    ensures accounts == Accounts(cfg, to) && external == Externals(cfg, to)
  {
    accounts, external := {}, [];
    if cfg.resolver.Some? {
      for i := 0 to |to|
        invariant accounts == Accounts(cfg, to[..i]) && external == Externals(cfg, to[..i])
      {
        var (account, local) := cfg.resolver.value(to[i]);
        assert to[..i + 1] == to[..i] + [to[i]] && to[..i + 1][..i] == to[..i];
        if local && account != "" {
          accounts := accounts + {account};
          assert Accounts(cfg, to[..i + 1]) == Accounts(cfg, to[..i]) + {account};
        } else {
          external := external + [to[i]];
          assert Accounts(cfg, to[..i + 1]) == Accounts(cfg, to[..i]);
        }
      }
      assert to[..|to|] == to;
    } else {
      NoResolverNoExternals(cfg, to);
    }
  }

  lemma {:induction false} NoResolverNoExternals(cfg: Config, to: seq<string>)
    requires cfg.resolver.None?
    ensures Externals(cfg, to) == [] && Accounts(cfg, to) == {}
  {
    if to != [] { NoResolverNoExternals(cfg, to[..|to| - 1]); }
  }

  lemma {:induction false} ExternalsExactly(cfg: Config, to: seq<string>, r: string)
    ensures r in Externals(cfg, to) <==>
            r in to && cfg.resolver.Some? && !(cfg.resolver.value(r).1 && cfg.resolver.value(r).0 != "")
  {
    if to != [] {
      ExternalsExactly(cfg, to[..|to| - 1], r);
      assert to == to[..|to| - 1] + [to[|to| - 1]];
    }
  }

  /** The accounts that get a message: those of its local recipients; and where nothing is resolved, for
      want of recipients or of a resolver, the fallback account, or failing that the account of the
      first recipient. */
  lemma TargetsExactly(cfg: Config, to: seq<string>, a: string)
    ensures a in Targets(cfg, to) <==>
            || (cfg.resolver.Some? && a != "" && exists r :: r in to && cfg.resolver.value(r) == (a, true))
            || ((cfg.resolver.None? || to == [])
                && if cfg.fallback != "" then a == cfg.fallback else to != [] && a == cfg.accountOf(to[0]))
  {
    if cfg.resolver.None? {
      NoResolverNoExternals(cfg, to);
    } else {
      AccountsExactly(cfg, to, a);
      if to != [] {
        var r := to[0];
        ExternalsExactly(cfg, to, r);
        AccountsExactly(cfg, to, cfg.resolver.value(r).0);
        assert r in Externals(cfg, to) || cfg.resolver.value(r).0 in Accounts(cfg, to);
      }
    }
  }

  lemma AccountsExactly(cfg: Config, to: seq<string>, a: string)
    requires cfg.resolver.Some?
    ensures a in Accounts(cfg, to) <==> a != "" && exists r :: r in to && cfg.resolver.value(r) == (a, true)
  {
    if a != "" && exists r :: r in to && cfg.resolver.value(r) == (a, true) {
      var r :| r in to && cfg.resolver.value(r) == (a, true);
      assert !External(cfg, r);
    }
    if a in Accounts(cfg, to) {
      var r :| r in to && !External(cfg, r) && cfg.resolver.value(r).0 == a;
      assert cfg.resolver.value(r) == (a, true);
    }
  }

  /** What an account does with a message, whatever its script and its backends do. */
  lemma AccountExactly(cfg: Config, b: Box)
    ensures var script := b.sieve.Some?;
            var through := !(script && (b.sieve.value.reject || b.sieve.value.discard))
                           && cfg.hasBlobs && b.put.None? && b.parsed && cfg.hasMail;
            && (Rejects(b) <==> script && b.sieve.value.reject)
            && (Discards(b) <==> script && b.sieve.value.discard && !b.sieve.value.reject)
            && (KeepsBlob(cfg, b) <==> cfg.hasBlobs && b.put.None?)
            && (Stores(cfg, b) <==>
                  through && b.create.None? && !(script && b.sieve.value.redirect && !b.sieve.value.fileInto))
            && (SendsOn(cfg, b) <==> through && script && b.sieve.value.redirect && cfg.outbound)
            && (Delivers(cfg, b) <==>
                  Discards(b) || Stores(cfg, b) || (through && script && b.sieve.value.redirect))
  {
  }

  // ----- DATA -----

  /** The verdict carries something to put in an Authentication-Results header. */
  predicate Reports(v: Verdict) { v.spf != "" || v.dkim != "" || v.dmarc != "" }

  /** The message was read and is within the limit, which is 50 MiB unless configured. */
  predicate Fits(cfg: Config, m: Message) {
    m.readable && m.size <= if cfg.maxMessageSize > 0 then cfg.maxMessageSize else 50 * 1024 * 1024
  }

  /** Once a message is read and fits: each target account gets one copy or none, as its own boxes
      decide; scheduling parts are applied only on an authenticated verdict and only where the
      script let the message through; and success is replied exactly when the message was dropped
      for want of any recipient, relayed, or taken by some account. */
  method HandleData(session: Session, m: Message) returns (r: Reply, fx: Effects)
    requires session.Valid()
    modifies session`senderAuth, session`verifies, session`commands
    ensures session.Valid() && session.commands == old(session.commands) + [Data(m.readable, m.size, m.verify)]
    ensures session.Current() == After(session.cfg, old(session.Current()), Data(m.readable, m.size, m.verify))
    ensures !m.readable ==> r == ReadFailed && fx == NO_EFFECTS
    ensures m.readable && !Fits(session.cfg, m) ==> r == Rejected(552) && fx == NO_EFFECTS
    ensures Fits(session.cfg, m) ==>
              && (r.Accepted? <==> (Targets(session.cfg, session.to) == {} && Externals(session.cfg, session.to) == [])
                                   || Externals(session.cfg, session.to) != []
                                   || ServedIn(session.cfg, m, Targets(session.cfg, session.to)) != {})
              && !r.ReadFailed?
              && (r.Rejected? ==>
                    exists a :: a in Targets(session.cfg, session.to) && FailureOf(session.cfg, m.box(a)).Some?
                                && r.code == CodeOf(FailureOf(session.cfg, m.box(a)).value))
              && multiset(fx.blobs) == multiset(BlobsIn(session.cfg, m, Targets(session.cfg, session.to)))
              && multiset(fx.stored) == multiset(StoredIn(session.cfg, m, Targets(session.cfg, session.to)))
              && multiset(fx.redirected) == multiset(SentOnIn(session.cfg, m, Targets(session.cfg, session.to)))
              && multiset(fx.applied)
                 == multiset(ScheduledIn(session.cfg, VerdictFor(session.cfg, old(session.Current()), m.verify), m,
                                         Targets(session.cfg, session.to)))
              && fx.external == Externals(session.cfg, session.to)
              && (fx.header <==>
                    var v := VerdictFor(session.cfg, old(session.Current()), m.verify);
                    v.spf != "" || v.dkim != "" || v.dmarc != "")
  {
    var cfg := session.cfg;
    RunStep(cfg, session.commands, Data(m.readable, m.size, m.verify));
    session.commands := session.commands + [Data(m.readable, m.size, m.verify)];
    if !m.readable {
      return ReadFailed, NO_EFFECTS;
    }
    if m.size > MaxSize(cfg) {
      return Rejected(552), NO_EFFECTS;
    }
    var v := session.SenderAuthResult(m.verify);
    var header := Reports(v);
    var targets, external := ChooseTargets(cfg, session.to);
    if targets == {} && external == [] {
      return Accepted, Effects([], [], [], [], [], header);
    }
    var t := DeliverToAll(session, m, v, targets, external != []);
    fx := Effects(t.blobs, t.stored, t.redirected, t.applied, external, header);
    if !t.deliveredAny {
      r := Rejected(if t.firstFailure.Some? && t.firstFailure.value.Smtp? then t.firstFailure.value.code else 451);
    } else {
      r := Accepted;
    }
  }

  /** DATA as a client from outside meets it, with the verifier of `SenderAuth`: unless there is local
      trust or a verdict from before, the calendars that take the scheduling part are exactly those of
      the accounts whose script lets the message through, provided the sender is authentic. */
  method ReceiveData(session: Session, dns: Dns, e: Evidence, m: Message) returns (r: Reply, fx: Effects)
    requires session.Valid()
    modifies session`senderAuth, session`verifies, session`commands
    ensures session.Valid()
    ensures Fits(session.cfg, m) && Unknown(session.cfg, old(session.Current())) ==>
              multiset(fx.applied) == multiset(AuthenticIn(session.cfg, dns, e, m, Targets(session.cfg, session.to)))
    ensures !Fits(session.cfg, m) ==> fx == NO_EFFECTS
  {
    var verify := Verify(dns, e);
    r, fx := HandleData(session, m.(verify := verify));
    ghost var s := old(session.Current());
    if Unknown(session.cfg, s) {
      GateIsAuthentic(session.cfg, s, dns, e, verify, m, Targets(session.cfg, session.to));
    }
  }

  /** The verdict on the sender is up to the verifier. */
  predicate Unknown(cfg: Config, s: State) { cfg.verifier && s.senderAuth.None? && !TrustedLocally(cfg, s) }

  ghost function AuthenticIn(cfg: Config, dns: Dns, e: Evidence, m: Message, s: set<string>): set<string> {
    set a | a in s && cfg.hasCalendars && m.calendar && !e.empty && Authentic(dns, e)
            && !Rejects(m.box(a)) && !Discards(m.box(a))
  }

  lemma GateIsAuthentic(cfg: Config, s: State, dns: Dns, e: Evidence, verify: Option<Verdict>, m: Message,
                        targets: set<string>)
    requires verify.None? <==> e.empty
    requires verify.Some? ==> (verify.value.authenticated <==> Authentic(dns, e))
    requires Unknown(cfg, s)
    ensures ScheduledIn(cfg, VerdictFor(cfg, s, verify), m.(verify := verify), targets)
            == AuthenticIn(cfg, dns, e, m, targets)
  {
  }

  method ChooseTargets(cfg: Config, to: seq<string>) returns (targets: set<string>, external: seq<string>)
    ensures targets == Targets(cfg, to) && external == Externals(cfg, to)
  {
    targets, external := PlaceRecipients(cfg, to);
    if targets == {} && external == [] {
      if cfg.fallback != "" {
        targets := {cfg.fallback};
      } else if |to| > 0 {
        targets := {cfg.accountOf(to[0])};
      }
    }
  }

  /** The delivery loop; it asks for the verdict again at the first scheduling part and gets the one
      that the trace header used. */
  method DeliverToAll(session: Session, m: Message, ghost v: Verdict, targets: set<string>, relayed: bool)
    returns (t: Tally)
    requires session.senderAuth == Some(v)
    modifies session`senderAuth, session`verifies
    ensures session.Current() == old(session.Current())
    ensures Tallies(session.cfg, v, m, targets, relayed, t)
  {
    t := Tally([], [], [], [], relayed, None);
    NothingCounted(session.cfg, v, m, relayed);
    var authChecked, authOK := false, false;
    var rest := targets;
    while rest != {}
      invariant rest <= targets && Tallies(session.cfg, v, m, targets - rest, relayed, t)
      invariant session.Current() == old(session.Current()) && (authChecked ==> authOK == v.authenticated)
    {
      var a :| a in rest;
      t, authChecked, authOK := OneAccount(session, m, v, targets, rest, relayed, t, a, authChecked, authOK);
      rest := rest - {a};
    }
  }

  /** One round of the loop. */
  method OneAccount(session: Session, m: Message, ghost v: Verdict, ghost targets: set<string>, ghost rest: set<string>,
                    ghost relayed: bool, t: Tally, a: string, checked: bool, ok: bool)
    returns (t': Tally, authChecked: bool, authOK: bool)
    requires session.senderAuth == Some(v) && a in rest && rest <= targets && (checked ==> ok == v.authenticated)
    requires Tallies(session.cfg, v, m, targets - rest, relayed, t)
    modifies session`senderAuth, session`verifies
    ensures session.Current() == old(session.Current()) && (authChecked ==> authOK == v.authenticated)
    ensures Tallies(session.cfg, v, m, targets - (rest - {a}), relayed, t')
  {
    var cfg := session.cfg;
    var h := DeliverToAccount(cfg, m.box(a), t.firstFailure);
    var asks := h.goesOn && cfg.hasCalendars && m.calendar;
    authChecked, authOK := checked || asks, ok;
    if asks && !checked {
      authOK := AskAgain(session, m.verify, v);
    }
    t' := Counted(t, a, h, asks && authOK);
    CountAccount(cfg, v, m, targets - rest, relayed, t, a, h, asks && authOK);
    assert targets - (rest - {a}) == (targets - rest) + {a};
  }

  /** The loop's variables after one more account. */
  function Counted(t: Tally, a: string, h: Handling, applies: bool): Tally {
    Tally(With(t.blobs, a, h.blob), With(t.stored, a, h.stored), With(t.redirected, a, h.redirected),
          With(t.applied, a, applies), t.deliveredAny || h.delivered, h.failure)
  }

  /** With a verdict at hand, asking again gives it and changes nothing. */
  method AskAgain(session: Session, verify: Option<Verdict>, ghost v: Verdict) returns (ok: bool)
    requires session.senderAuth == Some(v)
    modifies session`senderAuth, session`verifies
    ensures session.Current() == old(session.Current()) && ok == v.authenticated
  {
    var again := session.SenderAuthResult(verify);
    ok := again.authenticated;
  }

  lemma NothingCounted(cfg: Config, v: Verdict, m: Message, relayed: bool)
    ensures Tallies(cfg, v, m, {}, relayed, Tally([], [], [], [], relayed, None))
  {
    assert ServedIn(cfg, m, {}) == {} && BlobsIn(cfg, m, {}) == {} && StoredIn(cfg, m, {}) == {};
    assert SentOnIn(cfg, m, {}) == {} && ScheduledIn(cfg, v, m, {}) == {};
  }

  /** The variables of the delivery loop, and what it has done so far. */
  datatype Tally = Tally(
    blobs: seq<string>, stored: seq<string>, redirected: seq<string>, applied: seq<string>,
    deliveredAny: bool, firstFailure: Option<Err>)

  function With(q: seq<string>, a: string, yes: bool): seq<string> { if yes then q + [a] else q }

  /** The loop's variables after the accounts in `s`; a failure is on record whenever nothing has
      been delivered. */
  ghost predicate Tallies(cfg: Config, v: Verdict, m: Message, s: set<string>, relayed: bool, t: Tally) {
    && (t.deliveredAny <==> relayed || ServedIn(cfg, m, s) != {})
    && (!t.deliveredAny && s != {} ==> t.firstFailure.Some?)
    && (t.firstFailure.Some? ==> exists a :: a in s && FailureOf(cfg, m.box(a)) == t.firstFailure)
    && multiset(t.blobs) == multiset(BlobsIn(cfg, m, s))
    && multiset(t.stored) == multiset(StoredIn(cfg, m, s))
    && multiset(t.redirected) == multiset(SentOnIn(cfg, m, s))
    && multiset(t.applied) == multiset(ScheduledIn(cfg, v, m, s))
  }

  lemma CountAccount(cfg: Config, v: Verdict, m: Message, s: set<string>, relayed: bool, t: Tally, a: string,
                     h: Handling, applies: bool)
    requires Tallies(cfg, v, m, s, relayed, t) && a !in s
    requires h.delivered == Delivers(cfg, m.box(a)) && h.stored == Stores(cfg, m.box(a))
    requires h.blob == KeepsBlob(cfg, m.box(a)) && h.redirected == SendsOn(cfg, m.box(a))
    requires applies == TakesSchedule(cfg, v, m, a)
    requires h.failure == if t.firstFailure.Some? then t.firstFailure else FailureOf(cfg, m.box(a))
    requires !h.delivered ==> h.failure.Some?
    ensures Tallies(cfg, v, m, s + {a}, relayed, Counted(t, a, h, applies))
  {
    AccountDone(cfg, v, m, s, a);
    Extends(t.blobs, BlobsIn(cfg, m, s), a);
    Extends(t.stored, StoredIn(cfg, m, s), a);
    Extends(t.redirected, SentOnIn(cfg, m, s), a);
    Extends(t.applied, ScheduledIn(cfg, v, m, s), a);
    if h.failure.Some? {
      if t.firstFailure.Some? {
        var b :| b in s && FailureOf(cfg, m.box(b)) == h.failure;
        assert b in s + {a};
      } else {
        assert a in s + {a};
      }
    }
  }

  lemma Extends(q: seq<string>, s: set<string>, a: string)
    requires multiset(q) == multiset(s) && a !in s
    ensures multiset(q + [a]) == multiset(s + {a})
  {
  }

  ghost function BlobsIn(cfg: Config, m: Message, s: set<string>): set<string> {
    set a | a in s && KeepsBlob(cfg, m.box(a))
  }

  ghost function SentOnIn(cfg: Config, m: Message, s: set<string>): set<string> {
    set a | a in s && SendsOn(cfg, m.box(a))
  }

  ghost function ServedIn(cfg: Config, m: Message, s: set<string>): set<string> {
    set a | a in s && Delivers(cfg, m.box(a))
  }

  ghost function StoredIn(cfg: Config, m: Message, s: set<string>): set<string> {
    set a | a in s && Stores(cfg, m.box(a))
  }

  ghost function ScheduledIn(cfg: Config, v: Verdict, m: Message, s: set<string>): set<string> {
    set a | a in s && TakesSchedule(cfg, v, m, a)
  }

  lemma AccountDone(cfg: Config, v: Verdict, m: Message, s: set<string>, a: string)
    requires a !in s
    ensures ServedIn(cfg, m, s + {a})
            == if Delivers(cfg, m.box(a)) then ServedIn(cfg, m, s) + {a} else ServedIn(cfg, m, s)
    ensures BlobsIn(cfg, m, s + {a})
            == if KeepsBlob(cfg, m.box(a)) then BlobsIn(cfg, m, s) + {a} else BlobsIn(cfg, m, s)
    ensures SentOnIn(cfg, m, s + {a})
            == if SendsOn(cfg, m.box(a)) then SentOnIn(cfg, m, s) + {a} else SentOnIn(cfg, m, s)
    ensures StoredIn(cfg, m, s + {a})
            == if Stores(cfg, m.box(a)) then StoredIn(cfg, m, s) + {a} else StoredIn(cfg, m, s)
    ensures ScheduledIn(cfg, v, m, s + {a})
            == if TakesSchedule(cfg, v, m, a) then ScheduledIn(cfg, v, m, s) + {a} else ScheduledIn(cfg, v, m, s)
  {
  }

  /** The account's calendar takes the scheduling part. */
  predicate TakesSchedule(cfg: Config, v: Verdict, m: Message, a: string) {
    cfg.hasCalendars && m.calendar && v.authenticated && !Rejects(m.box(a)) && !Discards(m.box(a))
  }
}
