/** The SMTP receiving session (smtp/receiver.go): MAIL, RCPT, AUTH, RSET and the cached sender
    verdict. DATA is in `ReceiverData`. */
module Receiver {
  import opened GoStrings
  import opened SenderAuth

  datatype Transport = Mx | Submission

  /** The server's configuration. `resolver` is the account resolver, giving an account id and
      whether the address is local; `sameAddress` compares two parsed addresses; `trustedClient`
      says that the client is on the loopback or a private network. */
  datatype Config = Config(
    mode: Transport, resolver: Option<string -> (string, bool)>, outbound: bool, authenticator: bool, verifier: bool,
    trustedClient: bool, sameAddress: (string, string) -> bool, accountOf: string -> string, fallback: string,
    maxMessageSize: nat, hasBlobs: bool, hasMail: bool, hasCalendars: bool)

  datatype Reply = Accepted | Rejected(code: nat) | ReadFailed

  /** What the Authenticator answered. */
  datatype Credentials = Temporary | Denied | Granted(email: string)

  /** The fields of a session, and how often the sender verifier has been asked. */
  datatype State = State(
    from: string, to: seq<string>, authenticated: bool, authenticatedAs: string,
    senderAuth: Option<Verdict>, verifies: nat)

  const FRESH := State("", [], false, "", None, 0)

  predicate Matches(cfg: Config, from: string, identity: string) {
    from != "" && identity != "" && cfg.sameAddress(from, identity)
  }

  predicate Local(cfg: Config, addr: string) { cfg.resolver.Some? && cfg.resolver.value(addr).1 }

  predicate Relays(cfg: Config, s: State) { cfg.mode.Submission? && s.authenticated && cfg.outbound }

  // ----- the commands, as state changes -----

  function AuthStep(cfg: Config, s: State, mech: string, username: string, c: Credentials): (State, Reply) {
    if cfg.mode.Mx? then (s, Rejected(502))
    else if mech != "PLAIN" then (s, Rejected(504))
    else if !cfg.authenticator then (s.(authenticated := true, authenticatedAs := username), Accepted)
    else Checked(s, c)
  }

  function AuthPlainStep(cfg: Config, s: State, c: Credentials): (State, Reply) {
    if !cfg.authenticator then (s, Accepted) else Checked(s, c)
  }

  function Checked(s: State, c: Credentials): (State, Reply) {
    match c
    case Temporary => (s, Rejected(454))
    case Denied => (s, Rejected(535))
    case Granted(email) => (s.(authenticated := true, authenticatedAs := email), Accepted)
  }

  /** The authenticated user may send as `from`: nobody in particular is logged in, it is the
      user's own address, or it is one of the user's identities. */
  predicate MaySendAs(cfg: Config, s: State, from: string, identities: Option<seq<string>>) {
    || s.authenticatedAs == "" || Matches(cfg, from, s.authenticatedAs)
    || (identities.Some? && exists e :: e in identities.value && Matches(cfg, from, e))
  }

  function MailStep(cfg: Config, s: State, from: string, identities: Option<seq<string>>): (State, Reply) {
    if cfg.mode.Submission? && !s.authenticated then (s, Rejected(530))
    else if cfg.mode.Submission? && !MaySendAs(cfg, s, from, identities) then (s, Rejected(550))
    else (s.(from := from, senderAuth := None), Accepted)
  }

  function RcptStep(cfg: Config, s: State, to: string): (State, Reply) {
    if cfg.resolver.Some? && !Relays(cfg, s) && !Local(cfg, to) then (s, Rejected(550))
    else (s.(to := s.to + [to]), Accepted)
  }

  function ResetStep(s: State): State { s.(from := "", to := [], senderAuth := None) }

  predicate TrustedLocally(cfg: Config, s: State) {
    (cfg.mode.Submission? && s.authenticated) || cfg.trustedClient || (s.from != "" && Local(cfg, s.from))
  }

  const TRUSTED := Verdict(true, "", "", "")
  const UNVERIFIED := Verdict(false, "", "", "")

  /** The verdict on the message of this transaction: the cached one, else local trust, else the
      verifier's, where an error counts as not authenticated. */
  function VerdictFor(cfg: Config, s: State, verify: Option<Verdict>): Verdict {
    match s.senderAuth
    case Some(v) => v
    case None =>
      if TrustedLocally(cfg, s) || !cfg.verifier then TRUSTED
      else match verify case Some(v) => v case None => UNVERIFIED
  }

  /** The session after that verdict was asked for, once or more often. */
  function Judged(cfg: Config, s: State, verify: Option<Verdict>): State {
    if s.senderAuth.Some? then s
    else s.(senderAuth := Some(VerdictFor(cfg, s, verify)),
            verifies := if TrustedLocally(cfg, s) || !cfg.verifier then s.verifies else s.verifies + 1)
  }

  const DEFAULT_MAX_SIZE := 52428800

  function MaxSize(cfg: Config): nat { if cfg.maxMessageSize > 0 then cfg.maxMessageSize else DEFAULT_MAX_SIZE }

  datatype Command =
    | Auth(mech: string, username: string, credentials: Credentials)
    | AuthPlain(credentials: Credentials)
    | Mail(from: string, identities: Option<seq<string>>)
    | Rcpt(to: string)
    | Data(readable: bool, size: nat, verify: Option<Verdict>)
    | Reset

  /** The session after a command. DATA changes nothing but the cached verdict. */
  function After(cfg: Config, s: State, c: Command): State {
    match c
    case Auth(mech, username, credentials) => AuthStep(cfg, s, mech, username, credentials).0
    case AuthPlain(credentials) => AuthPlainStep(cfg, s, credentials).0
    case Mail(from, identities) => MailStep(cfg, s, from, identities).0
    case Rcpt(to) => RcptStep(cfg, s, to).0
    case Data(readable, size, verify) => if readable && size <= MaxSize(cfg) then Judged(cfg, s, verify) else s
    case Reset => ResetStep(s)
  }

  function RunFrom(cfg: Config, s: State, cs: seq<Command>): State {
    if cs == [] then s else After(cfg, RunFrom(cfg, s, cs[..|cs| - 1]), cs[|cs| - 1])
  }

  // ----- the session object -----

  method HasIdentity(cfg: Config, sender: string, identities: Option<seq<string>>) returns (authorized: bool)
    ensures authorized <==> identities.Some? && exists e :: e in identities.value && Matches(cfg, sender, e)
  {
    authorized := false;
    if identities.Some? {
      for i := 0 to |identities.value|
        invariant !authorized
        invariant forall j :: 0 <= j < i ==> !Matches(cfg, sender, identities.value[j])
      {
        if Matches(cfg, sender, identities.value[i]) {
          authorized := true;
          assert identities.value[i] in identities.value;
          break;
        }
      }
    }
  }

  /** A session together with the commands it has seen: its fields are always those that the run of
      these commands leads to, so what is proved of every run holds of every session. */
  class Session {
    const cfg: Config
    var from: string
    var to: seq<string>
    var authenticated: bool
    var authenticatedAs: string
    var senderAuth: Option<Verdict>
    ghost var verifies: nat
    ghost var commands: seq<Command>

    ghost function Current(): State
      reads this
    {
      State(from, to, authenticated, authenticatedAs, senderAuth, verifies)
    }

    ghost predicate Valid()
      reads this
    {
      Current() == RunFrom(cfg, FRESH, commands)
    }

    constructor (cfg: Config)
      ensures Valid() && commands == [] && this.cfg == cfg
    {
      this.cfg := cfg;
      from, to, authenticated, authenticatedAs, senderAuth, verifies := "", [], false, "", None, 0;
      commands := [];
    }

    /** AUTH changes nothing unless it is accepted, and then only who the client is. */
    method DoAuth(mech: string, username: string, c: Credentials) returns (r: Reply)
      requires Valid()
      modifies this
      ensures Valid() && commands == old(commands) + [Auth(mech, username, c)]
      ensures (Current(), r) == AuthStep(cfg, old(Current()), mech, username, c)
      ensures r.Accepted? <==> cfg.mode.Submission? && mech == "PLAIN" && (cfg.authenticator ==> c.Granted?)
      ensures !r.Accepted? ==> Current() == old(Current())
      ensures r.Accepted? ==> authenticated && authenticatedAs == if cfg.authenticator then c.email else username
      ensures from == old(from) && to == old(to) && senderAuth == old(senderAuth)
      ensures old(authenticated) ==> authenticated
    {
      RunStep(cfg, commands, Auth(mech, username, c));
      commands := commands + [Auth(mech, username, c)];
      if cfg.mode != Submission {
        return Rejected(502);
      }
      if mech != "PLAIN" {
        return Rejected(504);
      }
      if !cfg.authenticator {
        authenticated, authenticatedAs := true, username;
        return Accepted;
      }
      match c {
        case Temporary => return Rejected(454);
        case Denied => return Rejected(535);
        case Granted(email) =>
          authenticated, authenticatedAs := true, email;
          return Accepted;
      }
    }

    /** Without an authenticator this accepts the client and yet does not make it authenticated. */
    method DoAuthPlain(c: Credentials) returns (r: Reply)
      requires Valid()
      modifies this
      ensures Valid() && commands == old(commands) + [AuthPlain(c)]
      ensures (Current(), r) == AuthPlainStep(cfg, old(Current()), c)
      ensures r.Accepted? <==> (cfg.authenticator ==> c.Granted?)
      ensures !r.Accepted? || !cfg.authenticator ==> Current() == old(Current())
      ensures r.Accepted? && cfg.authenticator ==> authenticated && authenticatedAs == c.email
      ensures from == old(from) && to == old(to) && senderAuth == old(senderAuth)
      ensures old(authenticated) ==> authenticated
    {
      RunStep(cfg, commands, AuthPlain(c));
      commands := commands + [AuthPlain(c)];
      if !cfg.authenticator {
        return Accepted;
      }
      match c {
        case Temporary => return Rejected(454);
        case Denied => return Rejected(535);
        case Granted(email) =>
          authenticated, authenticatedAs := true, email;
          return Accepted;
      }
    }

    /** MAIL is refused, changing nothing, or starts a transaction with no verdict. */
    method DoMail(sender: string, identities: Option<seq<string>>) returns (r: Reply)
      requires Valid()
      modifies this
      ensures Valid() && commands == old(commands) + [Mail(sender, identities)]
      ensures (Current(), r) == MailStep(cfg, old(Current()), sender, identities)
      ensures !r.Accepted? ==> Current() == old(Current())
      ensures r.Accepted? ==> from == sender && senderAuth.None? && to == old(to)
      ensures cfg.mode.Submission? && r.Accepted? ==>
                authenticated && MaySendAs(cfg, old(Current()), sender, identities)
    {
      RunStep(cfg, commands, Mail(sender, identities));
      commands := commands + [Mail(sender, identities)];
      if cfg.mode == Submission {
        if !authenticated {
          return Rejected(530);
        }
        if authenticatedAs != "" && !Matches(cfg, sender, authenticatedAs) {
          var authorized := HasIdentity(cfg, sender, identities);
          if !authorized {
            return Rejected(550);
          }
        }
      }
      from, senderAuth := sender, None;
      return Accepted;
    }

    /** RCPT stores a recipient exactly when the session may deliver to it, and touches nothing
        else; all stored recipients are then such. */
    method DoRcpt(rcpt: string) returns (r: Reply)
      requires Valid()
      modifies this
      ensures Valid() && commands == old(commands) + [Rcpt(rcpt)]
      ensures (Current(), r) == RcptStep(cfg, old(Current()), rcpt)
      ensures r.Accepted? <==> cfg.resolver.None? || cfg.resolver.value(rcpt).1
                               || (cfg.mode == Submission && old(authenticated) && cfg.outbound)
      ensures !r.Accepted? ==> r == Rejected(550)
      ensures Current() == old(Current()).(to := if r.Accepted? then old(to) + [rcpt] else old(to))
      ensures forall t :: t in to ==> MayStore(cfg, Current(), t)
    {
      RunStep(cfg, commands, Rcpt(rcpt));
      RunKeeps(cfg, commands + [Rcpt(rcpt)]);
      commands := commands + [Rcpt(rcpt)];
      if cfg.resolver.Some? && !(cfg.mode == Submission && authenticated && cfg.outbound) {
        var (_, local) := cfg.resolver.value(rcpt);
        if !local {
          return Rejected(550);
        }
      }
      to := to + [rcpt];
      return Accepted;
    }

    /** RSET keeps who the client is and nothing of the transaction. */
    method DoReset()
      requires Valid()
      modifies this
      ensures Valid() && commands == old(commands) + [Reset]
      ensures Current() == FRESH.(authenticated := old(authenticated), authenticatedAs := old(authenticatedAs),
                                  verifies := old(verifies))
    {
      ghost var before := Current();
      RunStep(cfg, commands, Reset);
      commands := commands + [Reset];
      from, to, senderAuth := "", [], None;
      assert Current() == ResetStep(before);
    }

    /** Asks the verifier at most once per transaction. */
    method SenderAuthResult(verify: Option<Verdict>) returns (v: Verdict)
      modifies this`senderAuth, this`verifies
      ensures Current() == Judged(cfg, old(Current()), verify)
      ensures v == VerdictFor(cfg, old(Current()), verify)
    {
      if senderAuth.Some? {
        return senderAuth.value;
      }
      if (cfg.mode == Submission && authenticated) || cfg.trustedClient || (from != "" && Local(cfg, from)) {
        v := TRUSTED;
      } else if !cfg.verifier {
        v := TRUSTED;
      } else {
        verifies := verifies + 1;
        v := if verify.None? then UNVERIFIED else verify.value;
      }
      senderAuth := Some(v);
    }
  }

  // ----- what every run keeps -----

  ghost predicate MayStore(cfg: Config, s: State, addr: string) {
    cfg.resolver.None? || Local(cfg, addr) || Relays(cfg, s)
  }

  ghost predicate Inv(cfg: Config, s: State) {
    && (forall r :: r in s.to ==> MayStore(cfg, s, r))
    && (cfg.mode.Submission? && s.from != "" ==> s.authenticated)
  }

  lemma StepKeeps(cfg: Config, s: State, c: Command)
    requires Inv(cfg, s)
    ensures Inv(cfg, After(cfg, s, c))
    ensures s.authenticated ==> After(cfg, s, c).authenticated
  {
  }

  /** In every session, whatever is sent: a stored recipient is local or the session relays, and
      in submission mode there is no sender without authentication. */
  lemma {:induction false} RunKeeps(cfg: Config, cs: seq<Command>)
    ensures Inv(cfg, RunFrom(cfg, FRESH, cs))
  {
    if cs != [] {
      RunKeeps(cfg, cs[..|cs| - 1]);
      StepKeeps(cfg, RunFrom(cfg, FRESH, cs[..|cs| - 1]), cs[|cs| - 1]);
    }
  }

  /** Authentication never reverts. */
  lemma {:induction false} AuthenticatedForGood(cfg: Config, s: State, cs: seq<Command>)
    requires s.authenticated
    ensures RunFrom(cfg, s, cs).authenticated
  {
    if cs != [] { AuthenticatedForGood(cfg, s, cs[..|cs| - 1]); }
  }

  /** DATA treats an address as external: the resolver does not give it a local account. */
  predicate External(cfg: Config, addr: string) {
    cfg.resolver.Some? && !(Local(cfg, addr) && cfg.resolver.value(addr).0 != "")
  }

  /** Hence no session can make the server relay unless it is authenticated submission with an
      outbound sender configured. */
  lemma ExternalOnlyWhenRelaying(cfg: Config, cs: seq<Command>, addr: string)
    requires cfg.resolver.Some? ==> forall a :: cfg.resolver.value(a).1 ==> cfg.resolver.value(a).0 != ""
    requires addr in RunFrom(cfg, FRESH, cs).to && External(cfg, addr)
    ensures cfg.mode == Submission && RunFrom(cfg, FRESH, cs).authenticated && cfg.outbound
  {
    RunKeeps(cfg, cs);
  }

  /** Command `i` is a MAIL that the session accepts. */
  predicate Opens(cfg: Config, cs: seq<Command>, i: nat)
    requires i < |cs|
  {
    cs[i].Mail? && MailStep(cfg, RunFrom(cfg, FRESH, cs[..i]), cs[i].from, cs[i].identities).1.Accepted?
  }

  /** The last thing to start or clear a transaction was the MAIL at `i`. */
  ghost predicate OpenSince(cfg: Config, cs: seq<Command>, i: nat)
    requires i < |cs|
  {
    Opens(cfg, cs, i) && forall k :: i < k < |cs| ==> !Opens(cfg, cs, k) && !cs[k].Reset?
  }

  /** The MAIL at `i` opened the present transaction, and on submission the client was authenticated and
      could send as that address. */
  ghost predicate SentAs(cfg: Config, cs: seq<Command>, i: nat, from: string)
    requires i < |cs|
  {
    && OpenSince(cfg, cs, i) && cs[i].from == from
    && (cfg.mode.Submission? ==>
          && RunFrom(cfg, FRESH, cs[..i]).authenticated
          && MaySendAs(cfg, RunFrom(cfg, FRESH, cs[..i]), from, cs[i].identities))
  }

  /** Whenever a session has a sender, it is the one of its last accepted MAIL, with no RSET since;
      and in submission mode the client was authenticated and could send as that address. */
  lemma {:induction false} SenderIsAuthorized(cfg: Config, cs: seq<Command>)
    ensures RunFrom(cfg, FRESH, cs).from != "" ==>
              exists i :: 0 <= i < |cs| && SentAs(cfg, cs, i, RunFrom(cfg, FRESH, cs).from)
  {
    if cs != [] && RunFrom(cfg, FRESH, cs).from != "" {
      var n := |cs| - 1;
      if Opens(cfg, cs, n) {
        assert SentAs(cfg, cs, n, RunFrom(cfg, FRESH, cs).from);
      } else {
        SenderIsAuthorized(cfg, cs[..n]);
        var from := RunFrom(cfg, FRESH, cs[..n]).from;
        var i :| 0 <= i < n && SentAs(cfg, cs[..n], i, from);
        OpenStays(cfg, cs, i);
        assert cs[..n][..i] == cs[..i];
        assert SentAs(cfg, cs, i, from);
      }
    }
  }

  lemma OpenStays(cfg: Config, cs: seq<Command>, i: nat)
    requires i < |cs| - 1 && OpenSince(cfg, cs[..|cs| - 1], i)
    requires !Opens(cfg, cs, |cs| - 1) && !cs[|cs| - 1].Reset?
    ensures OpenSince(cfg, cs, i)
  {
    var n := |cs| - 1;
    forall k | 0 <= k < n ensures Opens(cfg, cs, k) <==> Opens(cfg, cs[..n], k) {
      assert cs[..n][..k] == cs[..k];
    }
  }

  /** MAIL is answered with 530 to a client that has yet to authenticate, with 550 to one that is known and
      sends as an address that is neither its own nor that of one of its identities, and accepted
      otherwise; outside submission always. */
  lemma MailExactly(cfg: Config, s: State, from: string, identities: Option<seq<string>>)
    ensures MailStep(cfg, s, from, identities).1
            == if cfg.mode == Mx then Accepted
               else if !s.authenticated then Rejected(530)
               else if s.authenticatedAs == "" then Accepted
               else if from != "" && (cfg.sameAddress(from, s.authenticatedAs)
                       || (identities.Some?
                           && exists e :: e in identities.value && e != "" && cfg.sameAddress(from, e))) then Accepted
               else Rejected(550)
  {
  }

  /** Whether a message counts as authenticated: as before in this transaction; else for a submission
      client that is logged in, a client on a trusted network, a local sender, or without a verifier,
      yes and with nothing to report; else as the verifier says, and an error of it is no. */
  lemma VerdictExactly(cfg: Config, s: State, verify: Option<Verdict>)
    ensures s.senderAuth.Some? ==> VerdictFor(cfg, s, verify) == s.senderAuth.value
    ensures s.senderAuth.None? ==>
              var trusted := || (cfg.mode == Submission && s.authenticated) || cfg.trustedClient || !cfg.verifier
                             || (s.from != "" && cfg.resolver.Some? && cfg.resolver.value(s.from).1);
              VerdictFor(cfg, s, verify)
              == if trusted then Verdict(true, "", "", "")
                 else if verify.Some? then verify.value else Verdict(false, "", "", "")
  {
  }

  /** The command makes the session authenticated. */
  predicate Proves(cfg: Config, c: Command) {
    match c
    case Auth(mech, _, credentials) =>
      cfg.mode.Submission? && mech == "PLAIN" && (cfg.authenticator ==> credentials.Granted?)
    case AuthPlain(credentials) => cfg.authenticator && credentials.Granted?
    case _ => false
  }

  function ProvenAs(cfg: Config, c: Command): string
    requires Proves(cfg, c)
  {
    if cfg.authenticator then c.credentials.email else c.username
  }

  /** A session is authenticated exactly when one of its AUTH commands proved the client, and it knows
      the client under the name that the last such command proved. */
  lemma {:induction false} AuthenticatedExactly(cfg: Config, cs: seq<Command>)
    ensures var s := RunFrom(cfg, FRESH, cs);
            && (s.authenticated <==> exists i :: 0 <= i < |cs| && Proves(cfg, cs[i]))
            && (s.authenticated ==>
                  exists i :: 0 <= i < |cs| && Proves(cfg, cs[i]) && s.authenticatedAs == ProvenAs(cfg, cs[i])
                              && forall k :: i < k < |cs| ==> !Proves(cfg, cs[k]))
  {
    if cs != [] {
      var n := |cs| - 1;
      AuthenticatedExactly(cfg, cs[..n]);
      assert forall i :: 0 <= i < n ==> cs[..n][i] == cs[i];
    }
  }

  /** Two sessions that differ at most in how often the verifier was asked. */
  ghost predicate Alike(s: State, t: State) { s.(verifies := 0) == t.(verifies := 0) }

  lemma StepKeepsAlike(cfg: Config, s: State, t: State, c: Command)
    requires Alike(s, t)
    ensures Alike(After(cfg, s, c), After(cfg, t, c))
    ensures After(cfg, s, c).verifies - s.verifies == After(cfg, t, c).verifies - t.verifies
  {
    assert t == s.(verifies := t.verifies);
    match c {
      case Data(_, _, verify) => assert VerdictFor(cfg, s, verify) == VerdictFor(cfg, t, verify);
      case _ =>
    }
  }

  /** RSET forgets the transaction: whatever two sessions of the same client did before, after it every
      further run of commands brings them to the same state and asks the verifier equally often. */
  lemma {:induction false} ResetForgets(cfg: Config, s: State, t: State, cs: seq<Command>)
    requires s.authenticated == t.authenticated && s.authenticatedAs == t.authenticatedAs
    ensures var s', t' := RunFrom(cfg, ResetStep(s), cs), RunFrom(cfg, ResetStep(t), cs);
            Alike(s', t') && s'.verifies - s.verifies == t'.verifies - t.verifies
  {
    if cs != [] {
      var init := cs[..|cs| - 1];
      ResetForgets(cfg, s, t, init);
      StepKeepsAlike(cfg, RunFrom(cfg, ResetStep(s), init), RunFrom(cfg, ResetStep(t), init), cs[|cs| - 1]);
    }
  }

  lemma RunStep(cfg: Config, cs: seq<Command>, c: Command)
    ensures RunFrom(cfg, FRESH, cs + [c]) == After(cfg, RunFrom(cfg, FRESH, cs), c)
  {
    assert (cs + [c])[..|cs|] == cs;
  }

  /** How often the session started over: accepted MAIL commands and resets. */
  function Starts(cfg: Config, s: State, cs: seq<Command>): nat {
    if cs == [] then 0
    else
      var before, c := RunFrom(cfg, s, cs[..|cs| - 1]), cs[|cs| - 1];
      Starts(cfg, s, cs[..|cs| - 1])
      + if c.Reset? || (c.Mail? && MailStep(cfg, before, c.from, c.identities).1.Accepted?) then 1 else 0
  }

  /** One verdict per transaction: the verifier is asked at most once between two starts, however
      many DATA commands there are. */
  lemma {:induction false} OneVerdictPerTransaction(cfg: Config, cs: seq<Command>)
    ensures var s := RunFrom(cfg, FRESH, cs);
            s.verifies + (if s.senderAuth.None? then 1 else 0) <= Starts(cfg, FRESH, cs) + 1
  {
    if cs != [] { OneVerdictPerTransaction(cfg, cs[..|cs| - 1]); }
  }
}
