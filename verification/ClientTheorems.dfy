/** What exactly a client of EmailChanges ends up with: which ids it holds, when they are the account's,
    and when the three lists of an answer overlap. */
module ClientTheorems {
  import opened GoStrings
  import opened MailIds
  import opened ChangeLog
  import opened ChangeTracker
  import opened ChangeTheorems

  /** The log reaches back to the token and has this as the last event of `id`. */
  ghost predicate LogEnds(was: CompositeState, cur: CompositeState, log: seq<Entry>, id: string, action: Action) {
    HasHistory(was, cur, log) && EndsIn(Since(log, was.seqNo), id, action)
  }

  /** The UID was already assigned when the token was made, in a folder that still is the same. */
  predicate IsOld(was: CompositeState, cur: CompositeState, f: Bytes, u: Uint32) {
    Kept(was, cur, f) && u < was.folders[f].uidNext
  }

  lemma AccountMember(mb: Bytes -> string, acct: Account, names: set<Bytes>, f: Bytes, u: Uint32)
    requires DistinctIds(mb, names) && acct.Keys <= names && f in names
    ensures EmailIDFor(mb(f), u) in AccountIds(mb, acct) <==> f in acct && u in acct[f]
  {
    if EmailIDFor(mb(f), u) in AccountIds(mb, acct) {
      var g, v :| g in acct && v in acct[g] && EmailIDFor(mb(f), u) == EmailIDFor(mb(g), v);
      EmailIDForInjective(mb(f), u, mb(g), v);
    }
  }

  lemma UidsMember(mbID: string, lo: Uint32, hi: Uint32, u: Uint32)
    ensures EmailIDFor(mbID, u) in Uids(mbID, lo, hi) <==> lo <= u < hi
  {
    if EmailIDFor(mbID, u) in Uids(mbID, lo, hi) {
      var v: Uint32 :| lo <= v < hi && EmailIDFor(mbID, u) == EmailIDFor(mbID, v);
      EmailIDForInjective(mbID, u, mbID, v);
    }
  }

  /** A current folder creates the ids of exactly its UIDs that are not old. */
  lemma FoldersCreateExactly(mb: Bytes -> string, was: CompositeState, cur: CompositeState, f: Bytes, u: Uint32)
    requires DistinctIds(mb, was.folders.Keys + cur.folders.Keys)
    requires f in cur.folders && 1 <= u < cur.folders[f].uidNext
    ensures EmailIDFor(mb(f), u) in DeltaOfAll(mb, was, cur, cur.folders.Keys + was.folders.Keys).created
            <==> !IsOld(was, cur, f, u)
  {
    var id := EmailIDFor(mb(f), u);
    UidsMember(mb(f), 1, cur.folders[f].uidNext, u);
    if Kept(was, cur, f) { UidsMember(mb(f), was.folders[f].uidNext, cur.folders[f].uidNext, u); }
    assert id in DeltaOf(mb, was, cur, f).created <==> !IsOld(was, cur, f, u);
    forall g | g in cur.folders.Keys + was.folders.Keys && id in DeltaOf(mb, was, cur, g).created ensures g == f {
      OwnIds(mb, was, cur, g, f, u);
    }
  }

  /** What the client holds after the answer, for every UID a current folder has assigned: an old one
      stays unless the log destroyed it last, so a message expunged behind the server's back stays
      too; any other is there unless the Trash and Drafts filter hides it. */
  lemma ClientHoldsExactly(a: Answer, mb: Bytes -> string, was: CompositeState, cur: CompositeState, log: seq<Entry>,
                           fetch: string -> Option<nat>, maxChanges: Option<Uint64>, before: Account,
                           f: Bytes, u: Uint32)
    requires EmailAnswer(a, mb, Some(cur), Some(was), log, fetch, maxChanges) && !a.hasMore
    requires Describes(was, before) && DistinctIds(mb, was.folders.Keys + cur.folders.Keys)
    requires f in cur.folders && 1 <= u < cur.folders[f].uidNext
    ensures var id := EmailIDFor(mb(f), u);
            id in Apply(AccountIds(mb, before), AnswerDelta(a)) <==>
            if IsOld(was, cur, f, u)
            then (u in before[f] && !LogEnds(was, cur, log, id, Destroy))
                 || (LogEnds(was, cur, log, id, Create) && !Hidden(fetch, id))
            else !Hidden(fetch, id)
  {
    var id := EmailIDFor(mb(f), u);
    AnswerListsDelta(a, mb, was, cur, log, fetch, maxChanges);
    FoldMeaning(Since(log, was.seqNo), id);
    FoldersCreateExactly(mb, was, cur, f, u);
    AccountMember(mb, before, was.folders.Keys + cur.folders.Keys, f, u);
    if Kept(was, cur, f) {
      KeptNotDestroyed(mb, was, cur, f, u);
    } else if id in AccountIds(mb, before) {
      GoneIsDestroyed(mb, was, cur, f, u);
    }
    HeldAfter(AccountIds(mb, before), AnswerDelta(a), RawDelta(mb, was, cur, log), fetch, id);
  }

  lemma GoneIsDestroyed(mb: Bytes -> string, was: CompositeState, cur: CompositeState, f: Bytes, u: Uint32)
    requires f in was.folders && 1 <= u < was.folders[f].uidNext && !Kept(was, cur, f)
    ensures EmailIDFor(mb(f), u) in DeltaOfAll(mb, was, cur, cur.folders.Keys + was.folders.Keys).destroyed
  {
    UidsMember(mb(f), 1, was.folders[f].uidNext, u);
    assert f in cur.folders.Keys + was.folders.Keys && EmailIDFor(mb(f), u) in DeltaOf(mb, was, cur, f).destroyed;
  }

  lemma HeldAfter(ids: set<string>, d: Delta, raw: Delta, fetch: string -> Option<nat>, id: string)
    requires d == Delta(Visible(fetch, raw.created), raw.updated, raw.destroyed)
    ensures id in Apply(ids, d) <==> (id in ids && id !in raw.destroyed) || (id in raw.created && !Hidden(fetch, id))
  {
  }

  /** Every message that left a folder which stayed was destroyed through the server. */
  ghost predicate LeavingLogged(mb: Bytes -> string, was: CompositeState, cur: CompositeState, log: seq<Entry>,
                                before: Account, after: Account)
    requires Describes(was, before) && Describes(cur, after)
  {
    forall f, u :: Kept(was, cur, f) && u in before[f] && u !in after[f] ==>
      LogEnds(was, cur, log, EmailIDFor(mb(f), u), Destroy)
  }

  /** A UID assigned since the token that is gone again is one the filter hides. */
  ghost predicate PassingHidden(mb: Bytes -> string, was: CompositeState, cur: CompositeState,
                                fetch: string -> Option<nat>, after: Account)
    requires Describes(cur, after)
  {
    forall f, u: Uint32 :: f in cur.folders && FirstNew(was, cur, f) <= u < cur.folders[f].uidNext && u !in after[f] ==>
      Hidden(fetch, EmailIDFor(mb(f), u))
  }

  /** What the log created last is still there, or hidden. */
  ghost predicate CreationsLast(mb: Bytes -> string, was: CompositeState, cur: CompositeState, log: seq<Entry>,
                                fetch: string -> Option<nat>, after: Account)
  {
    forall id :: LogEnds(was, cur, log, id, Create) ==> id in AccountIds(mb, after) || Hidden(fetch, id)
  }

  /** The first UID of a current folder that the token has not seen. */
  function FirstNew(was: CompositeState, cur: CompositeState, f: Bytes): Uint32 {
    if Kept(was, cur, f) then was.folders[f].uidNext else 1
  }

  /** A client that held exactly the account's messages holds exactly them again, if and only if the
      three conditions above are met. */
  lemma ExactSyncExactly(a: Answer, mb: Bytes -> string, was: CompositeState, cur: CompositeState, log: seq<Entry>,
                         fetch: string -> Option<nat>, maxChanges: Option<Uint64>, before: Account, after: Account)
    requires EmailAnswer(a, mb, Some(cur), Some(was), log, fetch, maxChanges) && !a.hasMore
    requires Describes(was, before) && Describes(cur, after) && UidRules(was, cur, before, after)
    requires DistinctIds(mb, was.folders.Keys + cur.folders.Keys)
    requires TruthfulLog(mb, was, cur, after, log) && TruthfulFetch(mb, after, fetch)
    ensures Apply(AccountIds(mb, before), AnswerDelta(a)) == AccountIds(mb, after) <==>
            && LeavingLogged(mb, was, cur, log, before, after)
            && PassingHidden(mb, was, cur, fetch, after)
            && CreationsLast(mb, was, cur, log, fetch, after)
  {
    NoMissedMessage(a, mb, was, cur, log, fetch, maxChanges, before, after);
    AnswerListsDelta(a, mb, was, cur, log, fetch, maxChanges);
    var held := Apply(AccountIds(mb, before), AnswerDelta(a));
    if held == AccountIds(mb, after) {
      forall f, u | Kept(was, cur, f) && u in before[f] && u !in after[f]
        ensures LogEnds(was, cur, log, EmailIDFor(mb(f), u), Destroy)
      {
        LeftIsDestroyed(mb, was, cur, log, before, after, f, u, AnswerDelta(a), fetch);
      }
      forall f, u: Uint32 | f in cur.folders && FirstNew(was, cur, f) <= u < cur.folders[f].uidNext && u !in after[f]
        ensures Hidden(fetch, EmailIDFor(mb(f), u))
      {
        NewIsCreated(mb, was, cur, log, f, u);
        AccountMember(mb, after, was.folders.Keys + cur.folders.Keys, f, u);
        HeldAfter(AccountIds(mb, before), AnswerDelta(a), RawDelta(mb, was, cur, log), fetch, EmailIDFor(mb(f), u));
      }
      forall id | LogEnds(was, cur, log, id, Create) ensures id in AccountIds(mb, after) || Hidden(fetch, id) {
        FoldMeaning(Since(log, was.seqNo), id);
        HeldAfter(AccountIds(mb, before), AnswerDelta(a), RawDelta(mb, was, cur, log), fetch, id);
      }
    } else {
      var id :| id in held && id !in AccountIds(mb, after);
      HeldAfter(AccountIds(mb, before), AnswerDelta(a), RawDelta(mb, was, cur, log), fetch, id);
      ExtraIsBlamed(mb, was, cur, log, fetch, before, after, id);
    }
  }

  lemma NewIsCreated(mb: Bytes -> string, was: CompositeState, cur: CompositeState, log: seq<Entry>,
                     f: Bytes, u: Uint32)
    requires f in cur.folders && FirstNew(was, cur, f) <= u < cur.folders[f].uidNext
    ensures EmailIDFor(mb(f), u) in RawDelta(mb, was, cur, log).created
  {
    assert f in cur.folders.Keys + was.folders.Keys && EmailIDFor(mb(f), u) in DeltaOf(mb, was, cur, f).created;
  }

  lemma LeftIsDestroyed(mb: Bytes -> string, was: CompositeState, cur: CompositeState, log: seq<Entry>,
                        before: Account, after: Account, f: Bytes, u: Uint32, d: Delta, fetch: string -> Option<nat>)
    requires Describes(was, before) && Describes(cur, after) && DistinctIds(mb, was.folders.Keys + cur.folders.Keys)
    requires Kept(was, cur, f) && u in before[f] && u !in after[f]
    requires var raw := RawDelta(mb, was, cur, log); d == Delta(Visible(fetch, raw.created), raw.updated, raw.destroyed)
    requires Apply(AccountIds(mb, before), d) == AccountIds(mb, after)
    ensures LogEnds(was, cur, log, EmailIDFor(mb(f), u), Destroy)
  {
    var id := EmailIDFor(mb(f), u);
    AccountMember(mb, before, was.folders.Keys + cur.folders.Keys, f, u);
    AccountMember(mb, after, was.folders.Keys + cur.folders.Keys, f, u);
    HeldAfter(AccountIds(mb, before), d, RawDelta(mb, was, cur, log), fetch, id);
    KeptNotDestroyed(mb, was, cur, f, u);
    FoldMeaning(Since(log, was.seqNo), id);
  }

  /** An id the client holds beyond the account breaks one of the conditions. */
  lemma ExtraIsBlamed(mb: Bytes -> string, was: CompositeState, cur: CompositeState, log: seq<Entry>,
                      fetch: string -> Option<nat>, before: Account, after: Account, id: string)
    requires Describes(was, before) && Describes(cur, after) && DistinctIds(mb, was.folders.Keys + cur.folders.Keys)
    requires id !in AccountIds(mb, after)
    requires var raw := RawDelta(mb, was, cur, log);
             (id in AccountIds(mb, before) && id !in raw.destroyed) || (id in raw.created && !Hidden(fetch, id))
    ensures !(LeavingLogged(mb, was, cur, log, before, after) && PassingHidden(mb, was, cur, fetch, after)
              && CreationsLast(mb, was, cur, log, fetch, after))
  {
    FoldMeaning(Since(log, was.seqNo), id);
    var all := cur.folders.Keys + was.folders.Keys;
    if id in RawDelta(mb, was, cur, log).created && !Hidden(fetch, id) {
      if id in DeltaOfAll(mb, was, cur, all).created {
        var f :| f in all && id in DeltaOf(mb, was, cur, f).created;
        var u: Uint32 :| FirstNew(was, cur, f) <= u < cur.folders[f].uidNext && id == EmailIDFor(mb(f), u);
        assert u !in after[f];
      }
    } else {
      var f, u :| f in before && u in before[f] && id == EmailIDFor(mb(f), u);
      if Kept(was, cur, f) {
        assert u !in after[f];
      } else {
        GoneIsDestroyed(mb, was, cur, f, u);
      }
    }
  }

  // ----- removals that do not reach the client -----

  /** A new UID that the log destroyed last is in both lists, unless hidden, and so stays with the
      client: the folder's UID range adds again what the log removes. */
  lemma DestroyedAgainStays(a: Answer, mb: Bytes -> string, was: CompositeState, cur: CompositeState, log: seq<Entry>,
                            fetch: string -> Option<nat>, maxChanges: Option<Uint64>, f: Bytes, u: Uint32,
                            ids: set<string>)
    requires EmailAnswer(a, mb, Some(cur), Some(was), log, fetch, maxChanges) && !a.hasMore
    requires f in cur.folders && FirstNew(was, cur, f) <= u < cur.folders[f].uidNext
    requires LogEnds(was, cur, log, EmailIDFor(mb(f), u), Destroy) && !Hidden(fetch, EmailIDFor(mb(f), u))
    ensures var id := EmailIDFor(mb(f), u); id in a.created && id in a.destroyed && id in Apply(ids, AnswerDelta(a))
  {
    var id := EmailIDFor(mb(f), u);
    AnswerListsDelta(a, mb, was, cur, log, fetch, maxChanges);
    NewIsCreated(mb, was, cur, log, f, u);
    FoldMeaning(Since(log, was.seqNo), id);
    assert id in AnswerDelta(a).created && id in AnswerDelta(a).destroyed;
  }

  const A: Bytes := "A"

  /** A snapshot with the one folder A. */
  ghost predicate OnlyA(cs: CompositeState, uidNext: Uint32, messages: Uint32, seqNo: Uint64) {
    cs == CompositeState(map[A := FolderState(1, uidNext, 0, messages, 0)], seqNo)
  }

  lemma InFull(a: Answer, mb: Bytes -> string, was: CompositeState, cur: CompositeState, log: seq<Entry>,
               fetch: string -> Option<nat>)
    requires EmailAnswer(a, mb, Some(cur), Some(was), log, fetch, None) && HasHistory(was, cur, log)
    ensures !a.hasMore
  {
  }

  /** For instance, message 1 of A created and destroyed again through the server between two syncs. */
  lemma DestroyedAgainWitness(a: Answer, mb: Bytes -> string, was: CompositeState, cur: CompositeState,
                              log: seq<Entry>, fetch: string -> Option<nat>, id: string)
    requires OnlyA(was, 1, 0, 0) && OnlyA(cur, 2, 0, 2) && id == EmailIDFor(mb(A), 1) && !Hidden(fetch, id)
    requires log == [Entry(id, Create, 1), Entry(id, Destroy, 2)]
    requires EmailAnswer(a, mb, Some(cur), Some(was), log, fetch, None)
    ensures !a.hasMore && id in a.created && id in a.destroyed
  {
    CreatedThenDestroyed(id);
    InFull(a, mb, was, cur, log, fetch);
    DestroyedAgainStays(a, mb, was, cur, log, fetch, None, A, 1, {});
  }

  lemma CreatedThenDestroyed(id: string)
    ensures EndsIn(Since([Entry(id, Create, 1), Entry(id, Destroy, 2)], 0), id, Destroy)
  {
    var log := [Entry(id, Create, 1), Entry(id, Destroy, 2)];
    var first := [Entry(id, Create, 1)];
    assert first[..0] == [] && Since(first[..0], 0) == [] && Since(first, 0) == [] + first;
    assert log[..1] == first && Since(log, 0) == first + [log[1]] == log;
    assert Is(log[1], id, Destroy) && SettledAfter(log, id, 1);
  }

  /** A message that left a kept folder, and not through the server, stays with the client. */
  lemma ExpungedStays(a: Answer, mb: Bytes -> string, was: CompositeState, cur: CompositeState, log: seq<Entry>,
                      fetch: string -> Option<nat>, maxChanges: Option<Uint64>, before: Account, after: Account,
                      f: Bytes, u: Uint32)
    requires EmailAnswer(a, mb, Some(cur), Some(was), log, fetch, maxChanges) && !a.hasMore
    requires Describes(was, before) && Describes(cur, after) && UidRules(was, cur, before, after)
    requires DistinctIds(mb, was.folders.Keys + cur.folders.Keys)
    requires Kept(was, cur, f) && u in before[f] && u !in after[f]
    requires !LogEnds(was, cur, log, EmailIDFor(mb(f), u), Destroy)
    ensures EmailIDFor(mb(f), u) in Apply(AccountIds(mb, before), AnswerDelta(a))
    ensures EmailIDFor(mb(f), u) !in AccountIds(mb, after)
  {
    ClientHoldsExactly(a, mb, was, cur, log, fetch, maxChanges, before, f, u);
    AccountMember(mb, after, was.folders.Keys + cur.folders.Keys, f, u);
  }

  const ONE_MESSAGE: Account := map[A := map[1 := true]]
  const NO_MESSAGE: Account := map[A := map[]]

  /** For instance, message 1 of A expunged by another IMAP client. */
  lemma ExpungedWitness(a: Answer, mb: Bytes -> string, was: CompositeState, cur: CompositeState,
                        fetch: string -> Option<nat>)
    requires OnlyA(was, 2, 1, 0) && OnlyA(cur, 2, 0, 0)
    requires EmailAnswer(a, mb, Some(cur), Some(was), [], fetch, None)
    ensures Describes(was, ONE_MESSAGE) && Describes(cur, NO_MESSAGE) && UidRules(was, cur, ONE_MESSAGE, NO_MESSAGE)
    ensures !a.hasMore && EmailIDFor(mb(A), 1) in Apply(AccountIds(mb, ONE_MESSAGE), AnswerDelta(a))
    ensures EmailIDFor(mb(A), 1) !in AccountIds(mb, NO_MESSAGE)
  {
    ADescribed(mb, was, cur);
    InFull(a, mb, was, cur, [], fetch);
    ExpungedStays(a, mb, was, cur, [], fetch, None, ONE_MESSAGE, NO_MESSAGE, A, 1);
  }

  lemma ADescribed(mb: Bytes -> string, was: CompositeState, cur: CompositeState)
    requires OnlyA(was, 2, 1, 0) && OnlyA(cur, 2, 0, 0)
    ensures Describes(was, ONE_MESSAGE) && Describes(cur, NO_MESSAGE) && UidRules(was, cur, ONE_MESSAGE, NO_MESSAGE)
    ensures Kept(was, cur, A) && 1 in ONE_MESSAGE[A] && 1 !in NO_MESSAGE[A]
    ensures DistinctIds(mb, was.folders.Keys + cur.folders.Keys)
    ensures HasHistory(was, cur, []) && !LogEnds(was, cur, [], EmailIDFor(mb(A), 1), Destroy)
  {
  }

  // ----- the filter and the limit -----

  /** The filter covers the ids of folders that lowercase to trash or drafts, and only them. */
  lemma HiddenExactly(lower: Bytes -> Bytes, fetch: string -> Option<nat>, f: Bytes, u: Uint32)
    requires IsUtf8(f)
    ensures var id := EmailIDFor(MailboxIDForName(lower, f), u);
            Hidden(fetch, id) <==> (lower(f) == "trash" || lower(f) == "drafts") && fetch(id) == Some(0)
  {
    ParseEmailIDRoundTrip(MailboxIDForName(lower, f), u);
    ReservedNamesExactly(lower, f);
    if ReservedId(lower(f)).None? {
      Utf8AvoidsReserved(f, "trash");
      Utf8AvoidsReserved(f, "drafts");
    }
  }

  /** A UID assigned since the token is listed as created, in whatever folder, unless the folder is
      Trash or Drafts and the message is found to be gone already. */
  lemma NewMailListed(a: Answer, lower: Bytes -> Bytes, mb: Bytes -> string, was: CompositeState, cur: CompositeState,
                      log: seq<Entry>, fetch: string -> Option<nat>, maxChanges: Option<Uint64>, f: Bytes, u: Uint32)
    requires EmailAnswer(a, mb, Some(cur), Some(was), log, fetch, maxChanges) && !a.hasMore
    requires mb(f) == MailboxIDForName(lower, f) && IsUtf8(f)
    requires f in cur.folders && FirstNew(was, cur, f) <= u < cur.folders[f].uidNext
    ensures var id := EmailIDFor(mb(f), u);
            id in a.created <==> !((lower(f) == "trash" || lower(f) == "drafts") && fetch(id) == Some(0))
  {
    HiddenExactly(lower, fetch, f, u);
    ListedExactly(a, mb, was, cur, log, fetch, maxChanges, EmailIDFor(mb(f), u));
    assert New(mb, was, cur, EmailIDFor(mb(f), u));
  }

  /** The answers given before any change is looked at: nothing and the client's own state when the server
      cannot be reached; and with the current state a request to start over when the token cannot be
      read, or when the log does not reach back to it and there have been events since. */
  lemma EarlyAnswersExactly(a: Answer, mb: Bytes -> string, snapshot: Option<CompositeState>,
                            token: Option<CompositeState>, log: seq<Entry>, fetch: string -> Option<nat>)
    requires EmailAnswer(a, mb, snapshot, token, log, fetch, None)
    ensures snapshot.None? ==> a == Answer([], [], [], SinceState, false)
    ensures snapshot.Some? && token.None? ==> a == Answer([], [], [], CurrentState, true)
    ensures snapshot.Some? && token.Some? ==>
              var seen, now := token.value.seqNo, snapshot.value.seqNo;
              && a.newState == CurrentState
              && (a.hasMore <==> seen < now && (log == [] || log[0].state > seen + 1))
              && (a.hasMore ==> a.created == a.updated == a.destroyed == [])
  {
  }

  /** The limit decides between the full answer `b` and nothing: the answer is refused exactly when a
      positive number is given and there are more ids than that. */
  lemma LimitExactly(a: Answer, b: Answer, mb: Bytes -> string, snapshot: Option<CompositeState>,
                     token: Option<CompositeState>, log: seq<Entry>, fetch: string -> Option<nat>,
                     maxChanges: Option<Uint64>)
    requires EmailAnswer(a, mb, snapshot, token, log, fetch, maxChanges)
    requires EmailAnswer(b, mb, snapshot, token, log, fetch, None)
    ensures a == if maxChanges.Some? && 0 < maxChanges.value < |b.created| + |b.updated| + |b.destroyed|
                 then Answer([], [], [], NoState, true) else b
  {
    if snapshot.Some? && token.Some? && !b.hasMore {
      var d := RawDelta(mb, token.value, snapshot.value, log);
      ListsMeaning(b.created, Visible(fetch, d.created));
      ListsMeaning(b.updated, d.updated);
      ListsMeaning(b.destroyed, d.destroyed);
    }
  }

  // ----- where the lists of an answer overlap -----

  /** A UID assigned since the token, in some folder. */
  ghost predicate New(mb: Bytes -> string, was: CompositeState, cur: CompositeState, id: string) {
    exists f, u: Uint32 ::
      f in cur.folders && FirstNew(was, cur, f) <= u < cur.folders[f].uidNext && id == EmailIDFor(mb(f), u)
  }

  /** A UID the token knows from a folder that is gone or was recreated. */
  ghost predicate Gone(mb: Bytes -> string, was: CompositeState, cur: CompositeState, id: string) {
    exists f, u: Uint32 ::
      f in was.folders && !Kept(was, cur, f) && 1 <= u < was.folders[f].uidNext && id == EmailIDFor(mb(f), u)
  }

  /** A UID of a recreated folder, assigned both before and after. */
  ghost predicate Reborn(mb: Bytes -> string, was: CompositeState, cur: CompositeState, id: string) {
    exists f, u: Uint32 ::
      && f in was.folders && f in cur.folders && !Kept(was, cur, f)
      && 1 <= u < was.folders[f].uidNext && u < cur.folders[f].uidNext && id == EmailIDFor(mb(f), u)
  }

  /** The counters or the mod-sequence of a kept folder say that something in it changed, and there is
      no log to say what. */
  predicate Touched(was: CompositeState, cur: CompositeState, f: Bytes) {
    && Kept(was, cur, f) && was.seqNo == 0 && cur.seqNo == 0
    && var p, n := was.folders[f], cur.folders[f];
       n.highestModSeq > p.highestModSeq || (n.highestModSeq == 0 && CountersMoved(p, n))
  }

  ghost predicate Suspect(mb: Bytes -> string, was: CompositeState, cur: CompositeState, id: string) {
    exists f, u: Uint32 :: Touched(was, cur, f) && 1 <= u < was.folders[f].uidNext && id == EmailIDFor(mb(f), u)
  }

  /** The three sets of the folders' delta, id by id. */
  lemma FoldersMeaning(mb: Bytes -> string, was: CompositeState, cur: CompositeState, id: string)
    ensures var d := DeltaOfAll(mb, was, cur, cur.folders.Keys + was.folders.Keys);
            && (id in d.created <==> New(mb, was, cur, id))
            && (id in d.updated <==> Suspect(mb, was, cur, id))
            && (id in d.destroyed <==> Gone(mb, was, cur, id))
  {
    FoldersCreate(mb, was, cur, id);
    FoldersUpdate(mb, was, cur, id);
    FoldersDestroy(mb, was, cur, id);
  }

  lemma FoldersCreate(mb: Bytes -> string, was: CompositeState, cur: CompositeState, id: string)
    ensures id in DeltaOfAll(mb, was, cur, cur.folders.Keys + was.folders.Keys).created <==> New(mb, was, cur, id)
  {
    var all := cur.folders.Keys + was.folders.Keys;
    if New(mb, was, cur, id) {
      var f, u: Uint32 :|
        f in cur.folders && FirstNew(was, cur, f) <= u < cur.folders[f].uidNext && id == EmailIDFor(mb(f), u);
      assert f in all && id in DeltaOf(mb, was, cur, f).created;
    }
    if id in DeltaOfAll(mb, was, cur, all).created {
      var f :| f in all && id in DeltaOf(mb, was, cur, f).created;
      var u: Uint32 :| FirstNew(was, cur, f) <= u < cur.folders[f].uidNext && id == EmailIDFor(mb(f), u);
    }
  }

  lemma FoldersUpdate(mb: Bytes -> string, was: CompositeState, cur: CompositeState, id: string)
    ensures id in DeltaOfAll(mb, was, cur, cur.folders.Keys + was.folders.Keys).updated <==> Suspect(mb, was, cur, id)
  {
    var all := cur.folders.Keys + was.folders.Keys;
    if Suspect(mb, was, cur, id) {
      var f, u: Uint32 :| Touched(was, cur, f) && 1 <= u < was.folders[f].uidNext && id == EmailIDFor(mb(f), u);
      assert f in all && id in DeltaOf(mb, was, cur, f).updated;
    }
    if id in DeltaOfAll(mb, was, cur, all).updated {
      var f :| f in all && id in DeltaOf(mb, was, cur, f).updated;
      var u: Uint32 :| 1 <= u < was.folders[f].uidNext && id == EmailIDFor(mb(f), u);
      assert Touched(was, cur, f);
    }
  }

  lemma FoldersDestroy(mb: Bytes -> string, was: CompositeState, cur: CompositeState, id: string)
    ensures id in DeltaOfAll(mb, was, cur, cur.folders.Keys + was.folders.Keys).destroyed <==> Gone(mb, was, cur, id)
  {
    var all := cur.folders.Keys + was.folders.Keys;
    if Gone(mb, was, cur, id) {
      var f, u: Uint32 :|
        f in was.folders && !Kept(was, cur, f) && 1 <= u < was.folders[f].uidNext && id == EmailIDFor(mb(f), u);
      GoneIsDestroyed(mb, was, cur, f, u);
    }
    if id in DeltaOfAll(mb, was, cur, all).destroyed {
      var f :| f in all && id in DeltaOf(mb, was, cur, f).destroyed;
      var u: Uint32 :| 1 <= u < was.folders[f].uidNext && id == EmailIDFor(mb(f), u);
      assert !Kept(was, cur, f);
    }
  }

  /** With distinct mailbox ids an email id belongs to one folder and UID. */
  lemma OneHome(mb: Bytes -> string, names: set<Bytes>, f: Bytes, u: Uint32, g: Bytes, v: Uint32)
    requires DistinctIds(mb, names) && f in names && g in names && EmailIDFor(mb(f), u) == EmailIDFor(mb(g), v)
    ensures f == g && u == v
  {
    EmailIDForInjective(mb(f), u, mb(g), v);
  }

  /** What the folders say about one id: both new and gone only in a recreated folder, and changed only
      where it is neither. */
  lemma FoldersOverlap(mb: Bytes -> string, was: CompositeState, cur: CompositeState, id: string)
    requires DistinctIds(mb, was.folders.Keys + cur.folders.Keys)
    ensures New(mb, was, cur, id) && Gone(mb, was, cur, id) <==> Reborn(mb, was, cur, id)
    ensures Suspect(mb, was, cur, id) ==> !New(mb, was, cur, id) && !Gone(mb, was, cur, id)
  {
    var names := was.folders.Keys + cur.folders.Keys;
    if Suspect(mb, was, cur, id) {
      var f, u: Uint32 :| Touched(was, cur, f) && 1 <= u < was.folders[f].uidNext && id == EmailIDFor(mb(f), u);
      forall g, v: Uint32 | g in names && id == EmailIDFor(mb(g), v) ensures g == f && v == u {
        OneHome(mb, names, f, u, g, v);
      }
    }
    if Gone(mb, was, cur, id) {
      var f, u: Uint32 :|
        f in was.folders && !Kept(was, cur, f) && 1 <= u < was.folders[f].uidNext && id == EmailIDFor(mb(f), u);
      forall g, v: Uint32 | g in names && id == EmailIDFor(mb(g), v) ensures g == f && v == u {
        OneHome(mb, names, f, u, g, v);
      }
    }
  }

  /** The log's last word on `id` is an update of something it did not create. */
  ghost predicate LogUpdates(was: CompositeState, cur: CompositeState, log: seq<Entry>, id: string) {
    LogEnds(was, cur, log, id, Update) && !LogEnds(was, cur, log, id, Create)
  }

  /** Created and destroyed at once: a UID of a recreated folder on both sides, a new UID that the log
      destroyed last, or one the log created last in a folder that is gone. */
  ghost predicate AddedAndDropped(mb: Bytes -> string, was: CompositeState, cur: CompositeState, log: seq<Entry>,
                                  id: string)
  {
    || Reborn(mb, was, cur, id)
    || (New(mb, was, cur, id) && LogEnds(was, cur, log, id, Destroy))
    || (LogEnds(was, cur, log, id, Create) && Gone(mb, was, cur, id))
  }

  ghost predicate AddedAndChanged(mb: Bytes -> string, was: CompositeState, cur: CompositeState, log: seq<Entry>,
                                  id: string)
  {
    || (New(mb, was, cur, id) && LogUpdates(was, cur, log, id))
    || (LogEnds(was, cur, log, id, Create) && Suspect(mb, was, cur, id))
  }

  ghost predicate ChangedAndDropped(mb: Bytes -> string, was: CompositeState, cur: CompositeState, log: seq<Entry>,
                                    id: string)
  {
    || (LogUpdates(was, cur, log, id) && (LogEnds(was, cur, log, id, Destroy) || Gone(mb, was, cur, id)))
    || (Suspect(mb, was, cur, id) && LogEnds(was, cur, log, id, Destroy))
  }

  /** Which ids are in each list of an answer, in terms of the folders and of the log's last word. */
  lemma ListedExactly(a: Answer, mb: Bytes -> string, was: CompositeState, cur: CompositeState, log: seq<Entry>,
                      fetch: string -> Option<nat>, maxChanges: Option<Uint64>, id: string)
    requires EmailAnswer(a, mb, Some(cur), Some(was), log, fetch, maxChanges) && !a.hasMore
    ensures id in a.created <==>
            (LogEnds(was, cur, log, id, Create) || New(mb, was, cur, id)) && !Hidden(fetch, id)
    ensures id in a.updated <==> LogUpdates(was, cur, log, id) || Suspect(mb, was, cur, id)
    ensures id in a.destroyed <==> LogEnds(was, cur, log, id, Destroy) || Gone(mb, was, cur, id)
  {
    AnswerListsDelta(a, mb, was, cur, log, fetch, maxChanges);
    FoldersMeaning(mb, was, cur, id);
    FoldMeaning(Since(log, was.seqNo), id);
    assert id in a.created <==> id in AnswerDelta(a).created;
    assert id in a.updated <==> id in AnswerDelta(a).updated;
    assert id in a.destroyed <==> id in AnswerDelta(a).destroyed;
  }

  /** Which ids are in two lists of an answer. */
  lemma OverlapExactly(a: Answer, mb: Bytes -> string, was: CompositeState, cur: CompositeState, log: seq<Entry>,
                       fetch: string -> Option<nat>, maxChanges: Option<Uint64>, id: string)
    requires EmailAnswer(a, mb, Some(cur), Some(was), log, fetch, maxChanges) && !a.hasMore
    requires DistinctIds(mb, was.folders.Keys + cur.folders.Keys)
    ensures id in a.created && id in a.destroyed <==> AddedAndDropped(mb, was, cur, log, id) && !Hidden(fetch, id)
    ensures id in a.created && id in a.updated <==> AddedAndChanged(mb, was, cur, log, id) && !Hidden(fetch, id)
    ensures id in a.updated && id in a.destroyed <==> ChangedAndDropped(mb, was, cur, log, id)
  {
    ListedExactly(a, mb, was, cur, log, fetch, maxChanges, id);
    FoldersOverlap(mb, was, cur, id);
    LastWord(was, cur, log, id);
  }

  lemma LastWord(was: CompositeState, cur: CompositeState, log: seq<Entry>, id: string)
    ensures !(LogEnds(was, cur, log, id, Create) && LogEnds(was, cur, log, id, Destroy))
  {
    EndsMeet(Since(log, was.seqNo), id);
  }

  /** The lists of an answer are pairwise disjoint, as section 5.2 of RFC 8620 wants them, exactly when
      no id is of one of these kinds. */
  lemma DisjointExactly(a: Answer, mb: Bytes -> string, was: CompositeState, cur: CompositeState, log: seq<Entry>,
                        fetch: string -> Option<nat>, maxChanges: Option<Uint64>)
    requires EmailAnswer(a, mb, Some(cur), Some(was), log, fetch, maxChanges) && !a.hasMore
    requires DistinctIds(mb, was.folders.Keys + cur.folders.Keys)
    ensures Elems(a.created) !! Elems(a.updated) !! Elems(a.destroyed) <==>
            forall id ::
              && (AddedAndDropped(mb, was, cur, log, id) || AddedAndChanged(mb, was, cur, log, id)
                  ==> Hidden(fetch, id))
              && !ChangedAndDropped(mb, was, cur, log, id)
  {
    forall id
      ensures id in Elems(a.created) && id in Elems(a.destroyed) <==>
              AddedAndDropped(mb, was, cur, log, id) && !Hidden(fetch, id)
      ensures id in Elems(a.created) && id in Elems(a.updated) <==>
              AddedAndChanged(mb, was, cur, log, id) && !Hidden(fetch, id)
      ensures id in Elems(a.updated) && id in Elems(a.destroyed) <==> ChangedAndDropped(mb, was, cur, log, id)
    {
      OverlapExactly(a, mb, was, cur, log, fetch, maxChanges, id);
    }
  }

  /** For instance, a recreated folder lists every UID it had and has again as destroyed and created. */
  lemma RecreatedOverlaps(a: Answer, mb: Bytes -> string, was: CompositeState, cur: CompositeState, log: seq<Entry>,
                          fetch: string -> Option<nat>, maxChanges: Option<Uint64>, f: Bytes, u: Uint32)
    requires EmailAnswer(a, mb, Some(cur), Some(was), log, fetch, maxChanges) && !a.hasMore
    requires DistinctIds(mb, was.folders.Keys + cur.folders.Keys)
    requires f in was.folders && f in cur.folders && was.folders[f].uidValidity != cur.folders[f].uidValidity
    requires 1 <= u < was.folders[f].uidNext && u < cur.folders[f].uidNext && !Hidden(fetch, EmailIDFor(mb(f), u))
    ensures EmailIDFor(mb(f), u) in a.created && EmailIDFor(mb(f), u) in a.destroyed
  {
    assert Reborn(mb, was, cur, EmailIDFor(mb(f), u));
    OverlapExactly(a, mb, was, cur, log, fetch, maxChanges, EmailIDFor(mb(f), u));
  }
}
