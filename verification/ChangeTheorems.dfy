/** What the answers of EmailChanges mean for a client, over all accounts that obey the IMAP UID
    rules (section 2.3.1.1 of RFC 3501). */
module ChangeTheorems {
  import opened GoStrings
  import opened MailIds
  import opened ChangeLog
  import opened ChangeTracker

  /** The messages of one folder: UID to seen flag. */
  type Mailbox = map<Uint32, bool>

  type Account = map<Bytes, Mailbox>

  ghost function AccountIds(mb: Bytes -> string, acct: Account): set<string> {
    set f, u | f in acct && u in acct[f] :: EmailIDFor(mb(f), u)
  }

  /** The snapshot names the account's folders, and every UID is below UIDNEXT. */
  ghost predicate Describes(cs: CompositeState, acct: Account) {
    && cs.folders.Keys == acct.Keys
    && forall f, u :: f in acct && u in acct[f] ==> 1 <= u < cs.folders[f].uidNext
  }

  /** A folder present in both snapshots under the same UIDVALIDITY. */
  predicate Kept(was: CompositeState, cur: CompositeState, f: Bytes) {
    f in was.folders && f in cur.folders && was.folders[f].uidValidity == cur.folders[f].uidValidity
  }

  /** In a kept folder UIDNEXT does not fall, and a message below the old UIDNEXT is an old one. */
  ghost predicate UidRules(was: CompositeState, cur: CompositeState, before: Account, after: Account)
    requires Describes(was, before) && Describes(cur, after)
  {
    forall f :: Kept(was, cur, f) ==>
      && was.folders[f].uidNext <= cur.folders[f].uidNext
      && forall u :: u in after[f] && u < was.folders[f].uidNext ==> u in before[f]
  }

  /** No message now in a kept folder is one that the log last destroyed. */
  ghost predicate TruthfulLog(mb: Bytes -> string, was: CompositeState, cur: CompositeState, after: Account,
                              log: seq<Entry>)
    requires Describes(cur, after)
  {
    forall f, u :: Kept(was, cur, f) && u in after[f] ==>
      !EndsIn(Since(log, was.seqNo), EmailIDFor(mb(f), u), Destroy)
  }

  /** Fetching a message that exists does not come back empty. */
  ghost predicate TruthfulFetch(mb: Bytes -> string, after: Account, fetch: string -> Option<nat>) {
    forall id :: id in AccountIds(mb, after) ==> fetch(id) != Some(0)
  }

  ghost predicate DistinctIds(mb: Bytes -> string, names: set<Bytes>) {
    forall f, g :: f in names && g in names && mb(f) == mb(g) ==> f == g
  }

  /** Mailbox ids of UTF-8 names are distinct exactly when no two of them are spellings of one
      reserved folder. */
  lemma DistinctIdsExactly(lower: Bytes -> Bytes, names: set<Bytes>)
    requires forall n :: n in names ==> IsUtf8(n)
    ensures DistinctIds((n: Bytes) => MailboxIDForName(lower, n), names)
            <==> forall f, g ::
                   f in names && g in names && lower(f) == lower(g) && ReservedId(lower(f)).Some? ==> f == g
  {
    forall f, g | f in names && g in names
      ensures MailboxIDForName(lower, f) == MailboxIDForName(lower, g)
              <==> f == g || (lower(f) == lower(g) && ReservedId(lower(f)).Some?)
    {
      MailboxIdsFaithful(lower, f, g);
    }
    var mb := (n: Bytes) => MailboxIDForName(lower, n);
    if DistinctIds(mb, names) {
      forall f, g | f in names && g in names && lower(f) == lower(g) && ReservedId(lower(f)).Some?
        ensures f == g
      {
        assert mb(f) == mb(g);
      }
    }
  }

  ghost function AnswerDelta(a: Answer): Delta { Delta(Elems(a.created), Elems(a.updated), Elems(a.destroyed)) }

  /** An answer without hasMore lists the raw delta with hidden creations left out. */
  lemma AnswerListsDelta(a: Answer, mb: Bytes -> string, was: CompositeState, cur: CompositeState, log: seq<Entry>,
                         fetch: string -> Option<nat>, maxChanges: Option<Uint64>)
    requires EmailAnswer(a, mb, Some(cur), Some(was), log, fetch, maxChanges) && !a.hasMore
    ensures var d := RawDelta(mb, was, cur, log);
            AnswerDelta(a) == Delta(Visible(fetch, d.created), d.updated, d.destroyed)
  {
    var d := RawDelta(mb, was, cur, log);
    ListsMeaning(a.created, Visible(fetch, d.created));
    ListsMeaning(a.updated, d.updated);
    ListsMeaning(a.destroyed, d.destroyed);
  }

  /** A folder's delta names ids of that folder only. */
  lemma OwnIds(mb: Bytes -> string, was: CompositeState, cur: CompositeState, g: Bytes, f: Bytes, u: Uint32)
    requires var d, id := DeltaOf(mb, was, cur, g), EmailIDFor(mb(f), u);
             id in d.created || id in d.updated || id in d.destroyed
    ensures mb(g) == mb(f)
  {
    var d, id := DeltaOf(mb, was, cur, g), EmailIDFor(mb(f), u);
    UidsNameFolder(mb(g), d.created + d.updated + d.destroyed, id);
    var v: Uint32 :| id == EmailIDFor(mb(g), v);
    EmailIDForInjective(mb(f), u, mb(g), v);
  }

  lemma UidsNameFolder(mbID: string, ids: set<string>, id: string)
    requires id in ids
    requires forall x :: x in ids ==> exists lo, hi :: x in Uids(mbID, lo, hi)
    ensures exists v: Uint32 :: id == EmailIDFor(mbID, v)
  {
  }

  /** Folders only destroy ids of their own, and a kept folder destroys none. */
  lemma KeptNotDestroyed(mb: Bytes -> string, was: CompositeState, cur: CompositeState, f: Bytes, u: Uint32)
    requires DistinctIds(mb, was.folders.Keys + cur.folders.Keys) && Kept(was, cur, f)
    ensures EmailIDFor(mb(f), u) !in DeltaOfAll(mb, was, cur, cur.folders.Keys + was.folders.Keys).destroyed
  {
    var id := EmailIDFor(mb(f), u);
    forall g | g in cur.folders.Keys + was.folders.Keys ensures id !in DeltaOf(mb, was, cur, g).destroyed {
      if id in DeltaOf(mb, was, cur, g).destroyed { OwnIds(mb, was, cur, g, f, u); }
    }
  }

  /** No missed message: a client that drops the destroyed ids and adds the created ones then
      knows every message in the account, whatever happened to the folders in between. */
  lemma NoMissedMessage(a: Answer, mb: Bytes -> string, was: CompositeState, cur: CompositeState, log: seq<Entry>,
                        fetch: string -> Option<nat>, maxChanges: Option<Uint64>, before: Account, after: Account)
    requires EmailAnswer(a, mb, Some(cur), Some(was), log, fetch, maxChanges) && !a.hasMore
    requires Describes(was, before) && Describes(cur, after) && UidRules(was, cur, before, after)
    requires DistinctIds(mb, was.folders.Keys + cur.folders.Keys)
    requires TruthfulLog(mb, was, cur, after, log) && TruthfulFetch(mb, after, fetch)
    ensures AccountIds(mb, after) <= Apply(AccountIds(mb, before), AnswerDelta(a))
  {
    AnswerListsDelta(a, mb, was, cur, log, fetch, maxChanges);
    forall id | id in AccountIds(mb, after) ensures id in Apply(AccountIds(mb, before), AnswerDelta(a)) {
      var f, u :| f in after && u in after[f] && id == EmailIDFor(mb(f), u);
      if Kept(was, cur, f) && u < was.folders[f].uidNext {
        assert id in AccountIds(mb, before);
        OldMessageKept(mb, was, cur, log, after, f, u);
      } else {
        NewMessageCreated(mb, was, cur, log, after, f, u);
      }
    }
  }

  /** The account at some moment and the snapshot that describes it. */
  datatype Moment = Moment(state: CompositeState, account: Account)

  /** One sync of a client: the log and the fetches it ran with, its limit, and its answer. */
  datatype Round = Round(log: seq<Entry>, fetch: string -> Option<nat>, maxChanges: Option<Uint64>, answer: Answer)

  /** The round between two moments is answered without hasMore, and the world obeys the rules. */
  ghost predicate Regular(mb: Bytes -> string, was: Moment, now: Moment, r: Round) {
    && EmailAnswer(r.answer, mb, Some(now.state), Some(was.state), r.log, r.fetch, r.maxChanges) && !r.answer.hasMore
    && Describes(was.state, was.account) && Describes(now.state, now.account)
    && UidRules(was.state, now.state, was.account, now.account)
    && DistinctIds(mb, was.state.folders.Keys + now.state.folders.Keys)
    && TruthfulLog(mb, was.state, now.state, now.account, r.log) && TruthfulFetch(mb, now.account, r.fetch)
  }

  /** The ids a client holds after applying the answers one after the other. */
  ghost function Client(ids: set<string>, rounds: seq<Round>): set<string> {
    if rounds == [] then ids
    else Apply(Client(ids, rounds[..|rounds| - 1]), AnswerDelta(rounds[|rounds| - 1].answer))
  }

  lemma OneRound(mb: Bytes -> string, was: Moment, now: Moment, r: Round, ids: set<string>)
    requires Regular(mb, was, now, r) && AccountIds(mb, was.account) <= ids
    ensures AccountIds(mb, now.account) <= Apply(ids, AnswerDelta(r.answer))
  {
    NoMissedMessage(r.answer, mb, was.state, now.state, r.log, r.fetch, r.maxChanges, was.account, now.account);
  }

  /** Over every sequence of syncs, a client that once knew all messages always does, each time up
      to the moment of its last sync. */
  lemma {:induction false} NeverMissesOverRuns(mb: Bytes -> string, moments: seq<Moment>, rounds: seq<Round>,
                                               ids: set<string>)
    requires |moments| == |rounds| + 1
    requires forall i :: 0 <= i < |rounds| ==> Regular(mb, moments[i], moments[i + 1], rounds[i])
    requires AccountIds(mb, moments[0].account) <= ids
    ensures AccountIds(mb, moments[|rounds|].account) <= Client(ids, rounds)
  {
    if rounds != [] {
      var n := |rounds| - 1;
      var earlier := moments[..n + 1];
      assert forall i :: 0 <= i < n ==> rounds[..n][i] == rounds[i];
      NeverMissesOverRuns(mb, earlier, rounds[..n], ids);
      OneRound(mb, moments[n], moments[n + 1], rounds[n], Client(ids, rounds[..n]));
    }
  }

  lemma OldMessageKept(mb: Bytes -> string, was: CompositeState, cur: CompositeState, log: seq<Entry>, after: Account,
                       f: Bytes, u: Uint32)
    requires DistinctIds(mb, was.folders.Keys + cur.folders.Keys) && Kept(was, cur, f)
    requires Describes(cur, after) && TruthfulLog(mb, was, cur, after, log) && u in after[f]
    ensures EmailIDFor(mb(f), u) !in RawDelta(mb, was, cur, log).destroyed
  {
    KeptNotDestroyed(mb, was, cur, f, u);
    FoldMeaning(Since(log, was.seqNo), EmailIDFor(mb(f), u));
  }

  lemma NewMessageCreated(mb: Bytes -> string, was: CompositeState, cur: CompositeState, log: seq<Entry>,
                          after: Account,
                          f: Bytes, u: Uint32)
    requires Describes(cur, after) && f in after && u in after[f]
    requires !(Kept(was, cur, f) && u < was.folders[f].uidNext)
    ensures EmailIDFor(mb(f), u) in RawDelta(mb, was, cur, log).created
  {
    assert EmailIDFor(mb(f), u) in DeltaOf(mb, was, cur, f).created;
    assert f in cur.folders.Keys + was.folders.Keys;
  }

  ghost predicate Addressable(mb: Bytes -> string, cur: CompositeState, id: string) {
    exists f, u: Uint32 :: f in cur.folders && u < cur.folders[f].uidNext && id == EmailIDFor(mb(f), u)
  }

  lemma FolderCreatesAddressable(mb: Bytes -> string, was: CompositeState, cur: CompositeState, id: string)
    requires id in DeltaOfAll(mb, was, cur, cur.folders.Keys + was.folders.Keys).created
    ensures Addressable(mb, cur, id)
  {
    var f :| f in cur.folders.Keys + was.folders.Keys && id in DeltaOf(mb, was, cur, f).created;
    var u: Uint32 :| u < cur.folders[f].uidNext && id == EmailIDFor(mb(f), u);
  }

  /** Beyond what the folders can hold, created is what the log created last. */
  lemma CreatedBeyondFolders(mb: Bytes -> string, was: CompositeState, cur: CompositeState, log: seq<Entry>, id: string)
    requires !Addressable(mb, cur, id)
    ensures id in RawDelta(mb, was, cur, log).created
            <==> HasHistory(was, cur, log) && EndsIn(Since(log, was.seqNo), id, Create)
  {
    FoldMeaning(Since(log, was.seqNo), id);
    if id in DeltaOfAll(mb, was, cur, cur.folders.Keys + was.folders.Keys).created {
      FolderCreatesAddressable(mb, was, cur, id);
    }
  }

  lemma SurvivorIsAddressable(mb: Bytes -> string, was: CompositeState, cur: CompositeState,
                              before: Account, after: Account, id: string)
    requires Describes(was, before) && Describes(cur, after) && UidRules(was, cur, before, after)
    requires id in AccountIds(mb, before)
    requires id !in DeltaOfAll(mb, was, cur, cur.folders.Keys + was.folders.Keys).destroyed
    ensures Addressable(mb, cur, id)
  {
    var f, u :| f in before && u in before[f] && id == EmailIDFor(mb(f), u);
    assert f in cur.folders.Keys + was.folders.Keys && id !in DeltaOf(mb, was, cur, f).destroyed;
    assert Kept(was, cur, f) by {
      if !Kept(was, cur, f) { assert id in Uids(mb(f), 1, was.folders[f].uidNext); }
    }
  }

  /** Nor does the client keep anything from a folder that is gone or was recreated, with one exact
      exception: an id outside every folder of the snapshot stays with the client when, and only
      when, the log created it last and the Trash and Drafts filter lets it pass. */
  lemma StrayExactly(a: Answer, mb: Bytes -> string, was: CompositeState, cur: CompositeState, log: seq<Entry>,
                     fetch: string -> Option<nat>, maxChanges: Option<Uint64>, before: Account, after: Account,
                     id: string)
    requires EmailAnswer(a, mb, Some(cur), Some(was), log, fetch, maxChanges) && !a.hasMore
    requires Describes(was, before) && Describes(cur, after) && UidRules(was, cur, before, after)
    requires !Addressable(mb, cur, id)
    ensures id in Apply(AccountIds(mb, before), AnswerDelta(a)) <==>
            HasHistory(was, cur, log) && EndsIn(Since(log, was.seqNo), id, Create) && !Hidden(fetch, id)
  {
    AnswerListsDelta(a, mb, was, cur, log, fetch, maxChanges);
    CreatedBeyondFolders(mb, was, cur, log, id);
    if id in AccountIds(mb, before) { DestroyedBeyondFolders(mb, was, cur, log, before, after, id); }
    ApplyVisible(AccountIds(mb, before), AnswerDelta(a), RawDelta(mb, was, cur, log), fetch, id);
  }

  /** A token with one empty folder A, and a later snapshot without it. */
  const ONLY_A := CompositeState(map["A" := FolderState(1, 1, 0, 0, 0)], 0)
  const NOTHING := CompositeState(map[], 1)

  /** Such an id: a message created through the server in folder A, which is then deleted. No folder
      is left, and the client is told to add the message. */
  lemma StrayWitness(a: Answer, mb: Bytes -> string, fetch: string -> Option<nat>, id: string)
    requires id == EmailIDFor(mb("A"), 1) && !Hidden(fetch, id)
    requires EmailAnswer(a, mb, Some(NOTHING), Some(ONLY_A), [Entry(id, Create, 1)], fetch, None)
    ensures Describes(NOTHING, map[]) && AccountIds(mb, map[]) == {}
    ensures !a.hasMore && id in a.created
  {
    OneCreation(id);
    CreationReported(a, mb, ONLY_A, NOTHING, [Entry(id, Create, 1)], fetch, id);
  }

  lemma CreationReported(a: Answer, mb: Bytes -> string, was: CompositeState, cur: CompositeState, log: seq<Entry>,
                         fetch: string -> Option<nat>, id: string)
    requires EmailAnswer(a, mb, Some(cur), Some(was), log, fetch, None)
    requires HasHistory(was, cur, log) && id in Fold(Since(log, was.seqNo)).created && !Hidden(fetch, id)
    ensures !a.hasMore && id in a.created
  {
    AnswerListsDelta(a, mb, was, cur, log, fetch, None);
    assert id in AnswerDelta(a).created;
  }

  lemma OneCreation(id: string)
    ensures id in Fold(Since([Entry(id, Create, 1)], 0)).created
  {
    var log := [Entry(id, Create, 1)];
    assert log[..0] == [] && Since(log[..0], 0) == [] && Since(log, 0) == [] + log;
  }

  lemma DestroyedBeyondFolders(mb: Bytes -> string, was: CompositeState, cur: CompositeState, log: seq<Entry>,
                               before: Account, after: Account, id: string)
    requires Describes(was, before) && Describes(cur, after) && UidRules(was, cur, before, after)
    requires !Addressable(mb, cur, id) && id in AccountIds(mb, before)
    ensures id in RawDelta(mb, was, cur, log).destroyed
  {
    if id !in DeltaOfAll(mb, was, cur, cur.folders.Keys + was.folders.Keys).destroyed {
      SurvivorIsAddressable(mb, was, cur, before, after, id);
    }
  }

  lemma ApplyVisible(ids: set<string>, d: Delta, raw: Delta, fetch: string -> Option<nat>, id: string)
    requires d == Delta(Visible(fetch, raw.created), raw.updated, raw.destroyed)
    requires id in ids ==> id in raw.destroyed
    ensures id in Apply(ids, d) <==> id in raw.created && !Hidden(fetch, id)
  {
  }

  /** The answer reports what the events come to, but for hidden creations. */
  ghost predicate ReportsEvents(a: Answer, fetch: string -> Option<nat>, events: seq<Entry>) {
    var d := Fold(events);
    Visible(fetch, d.created) <= Elems(a.created) && d.updated <= Elems(a.updated) && d.destroyed <= Elems(a.destroyed)
  }

  /** No silent gap: with the log as `EmailLog` keeps it, an answer either reports every event since
      the token or refuses with no ids, and it refuses when events were lost. */
  lemma NoSilentGap(a: Answer, mb: Bytes -> string, was: CompositeState, cur: CompositeState, log: seq<Entry>,
                    fetch: string -> Option<nat>, maxChanges: Option<Uint64>, history: seq<Entry>)
    requires EmailAnswer(a, mb, Some(cur), Some(was), log, fetch, maxChanges)
    requires Numbered(history) && IsSuffix(log, history) && cur.seqNo == |history| && was.seqNo <= cur.seqNo
    ensures |history| - |log| > was.seqNo ==> a == Refusal(CurrentState)
    ensures if a.hasMore then a.created == a.updated == a.destroyed == []
            else ReportsEvents(a, fetch, history[was.seqNo..])
  {
    LogReaches(was, cur, log, history);
    if !a.hasMore {
      LogFolds(was, cur, log, history);
      AnswerListsDelta(a, mb, was, cur, log, fetch, maxChanges);
      FoldedIsReported(a, mb, was, cur, log, fetch);
    }
  }

  lemma FoldedIsReported(a: Answer, mb: Bytes -> string, was: CompositeState, cur: CompositeState, log: seq<Entry>,
                         fetch: string -> Option<nat>)
    requires var d := RawDelta(mb, was, cur, log);
             AnswerDelta(a) == Delta(Visible(fetch, d.created), d.updated, d.destroyed)
    ensures var d := LogDelta(was, cur, log);
            Visible(fetch, d.created) <= Elems(a.created) && d.updated <= Elems(a.updated)
            && d.destroyed <= Elems(a.destroyed)
  {
    var d := RawDelta(mb, was, cur, log);
    assert Elems(a.created) == Visible(fetch, d.created) && Elems(a.updated) == d.updated
           && Elems(a.destroyed) == d.destroyed;
  }

  /** The log's part of the answer has the effect of living through the events since the token. */
  lemma LogReplays(was: CompositeState, cur: CompositeState, log: seq<Entry>, history: seq<Entry>, ids: set<string>)
    requires Numbered(history) && IsSuffix(log, history) && cur.seqNo == |history| && was.seqNo <= cur.seqNo
    requires |history| - |log| <= was.seqNo
    ensures Apply(ids, LogDelta(was, cur, log)) == Replay(ids, history[was.seqNo..])
  {
    LogFolds(was, cur, log, history);
    ReplayLaw(ids, history[was.seqNo..]);
  }

  /** How far back the log goes decides whether it counts as history; with a token at the largest
      sequence number there is nothing left to fold either way. */
  lemma LogReaches(was: CompositeState, cur: CompositeState, log: seq<Entry>, history: seq<Entry>)
    requires Numbered(history) && IsSuffix(log, history) && cur.seqNo == |history| && was.seqNo <= cur.seqNo
    ensures |history| - |log| > was.seqNo ==> !HasHistory(was, cur, log)
    ensures |history| - |log| <= was.seqNo ==> HasHistory(was, cur, log) || was.seqNo == |history|
  {
    if log != [] { assert log[0] == history[|history| - |log|]; }
  }

  lemma LogFolds(was: CompositeState, cur: CompositeState, log: seq<Entry>, history: seq<Entry>)
    requires Numbered(history) && IsSuffix(log, history) && cur.seqNo == |history| && was.seqNo <= cur.seqNo
    requires |history| - |log| <= was.seqNo
    ensures LogDelta(was, cur, log) == Fold(history[was.seqNo..])
  {
    LogReaches(was, cur, log, history);
    if HasHistory(was, cur, log) {
      SinceIsSuffix(log, history, was.seqNo);
    } else {
      assert history[was.seqNo..] == [];
    }
  }

  /** The answer is refused for want of history. */
  predicate Refused(was: CompositeState, cur: CompositeState, log: seq<Entry>) {
    !HasHistory(was, cur, log) && was.seqNo < cur.seqNo
  }

  function Min(a: nat, b: nat): nat { if a < b then a else b }

  /** Unless it is refused, the answer goes by the events numbered above the token, whatever
      numbering the token is from. */
  lemma FoldsAboveToken(was: CompositeState, cur: CompositeState, log: seq<Entry>, history: seq<Entry>)
    requires Numbered(history) && IsSuffix(log, history) && cur.seqNo == |history|
    ensures Refused(was, cur, log) || LogDelta(was, cur, log) == Fold(history[Min(was.seqNo, |history|)..])
  {
    if was.seqNo > |history| {
      SinceNothing(log, was.seqNo);
      assert history[|history|..] == [];
    } else {
      LogReaches(was, cur, log, history);
      if |history| - |log| <= was.seqNo { LogFolds(was, cur, log, history); }
    }
  }

  /** A token from the future, as a client keeps when the counter went back, hides every event in
      the log: what the answer lists comes from the folders alone, and it is no refusal unless it is
      over the limit. */
  lemma FutureTokenHidesEvents(a: Answer, mb: Bytes -> string, was: CompositeState, cur: CompositeState,
                               log: seq<Entry>,
                               fetch: string -> Option<nat>, maxChanges: Option<Uint64>, history: seq<Entry>)
    requires EmailAnswer(a, mb, Some(cur), Some(was), log, fetch, maxChanges)
    requires Numbered(history) && IsSuffix(log, history) && cur.seqNo == |history| && was.seqNo > cur.seqNo
    ensures LogDelta(was, cur, log) == NO_CHANGE
    ensures if a.hasMore then a == Refusal(NoState)
            else var d := DeltaOfAll(mb, was, cur, cur.folders.Keys + was.folders.Keys);
                 AnswerDelta(a) == Delta(Visible(fetch, d.created), d.updated, d.destroyed)
  {
    FoldsAboveToken(was, cur, log, history);
    assert history[|history|..] == [];
    if !a.hasMore { AnswerListsDelta(a, mb, was, cur, log, fetch, maxChanges); }
  }

  /** A client that has seen `seen` of the events is refused or told of all the others, whatever the
      events were, however much of the log is left and whatever the limit, exactly when it has seen
      them all or that is the number its token stands for. */
  lemma AccountedExactly(mb: Bytes -> string, fetch: string -> Option<nat>, was: CompositeState, cur: CompositeState,
                         seen: nat)
    requires seen <= cur.seqNo
    ensures seen == cur.seqNo || seen == Min(was.seqNo, cur.seqNo) <==>
            forall log, history, maxChanges, a ::
              Numbered(history) && IsSuffix(log, history) && |history| == cur.seqNo
              && EmailAnswer(a, mb, Some(cur), Some(was), log, fetch, maxChanges) ==>
                a.hasMore || ReportsEvents(a, fetch, history[seen..])
  {
    if seen == cur.seqNo || seen == Min(was.seqNo, cur.seqNo) {
      forall log, history, maxChanges, a |
        Numbered(history) && IsSuffix(log, history) && |history| == cur.seqNo
        && EmailAnswer(a, mb, Some(cur), Some(was), log, fetch, maxChanges) && !a.hasMore
        ensures ReportsEvents(a, fetch, history[seen..])
      {
        ServedRest(a, mb, was, cur, log, fetch, maxChanges, history, seen);
      }
    } else {
      var history, a := KeptInTheDark(mb, fetch, was, cur, seen);
      assert IsSuffix(history, history);
    }
  }

  lemma ServedRest(a: Answer, mb: Bytes -> string, was: CompositeState, cur: CompositeState, log: seq<Entry>,
                   fetch: string -> Option<nat>, maxChanges: Option<Uint64>, history: seq<Entry>, seen: nat)
    requires EmailAnswer(a, mb, Some(cur), Some(was), log, fetch, maxChanges) && !a.hasMore
    requires Numbered(history) && IsSuffix(log, history) && |history| == cur.seqNo
    requires seen == cur.seqNo || seen == Min(was.seqNo, cur.seqNo)
    ensures ReportsEvents(a, fetch, history[seen..])
  {
    if seen == cur.seqNo {
      assert history[seen..] == [];
    } else {
      FoldsAboveToken(was, cur, log, history);
      AnswerListsDelta(a, mb, was, cur, log, fetch, maxChanges);
      FoldedIsReported(a, mb, was, cur, log, fetch);
    }
  }

  /** Events about one id that come to an update for a client that has seen `seen` of them, and to none
      for a token that stands for `told`. */
  ghost function Telling(n: nat, told: nat, seen: nat): seq<Entry> {
    seq(n, i requires 0 <= i < n =>
      Entry("x", if i == seen then Update else if i == told && told < seen then Create else Other, i + 1))
  }

  lemma TellsApart(n: nat, told: nat, seen: nat)
    requires told <= n && seen < n && told != seen
    ensures var h := Telling(n, told, seen); "x" in Fold(h[seen..]).updated && "x" !in Fold(h[told..]).updated
  {
    var h := Telling(n, told, seen);
    FoldMeaning(h[seen..], "x");
    FoldMeaning(h[told..], "x");
    assert Is(h[seen..][0], "x", Update) && SettledAfter(h[seen..], "x", 0);
    if told < seen { assert Is(h[told..][0], "x", Create) && SettledAfter(h[told..], "x", 0); }
  }

  /** An update of "x", which is no email id, is in the answer only if the log put it there. */
  lemma NoFolderUpdatesX(mb: Bytes -> string, was: CompositeState, cur: CompositeState, fs: set<Bytes>)
    ensures "x" !in DeltaOfAll(mb, was, cur, fs).updated
  {
    forall f | f in fs ensures "x" !in DeltaOf(mb, was, cur, f).updated {
      forall u: Uint32 ensures EmailIDFor(mb(f), u) != "x" { assert '-' in EmailIDFor(mb(f), u); }
    }
  }

  lemma KeptInTheDark(mb: Bytes -> string, fetch: string -> Option<nat>, was: CompositeState, cur: CompositeState,
                      seen: nat) returns (history: seq<Entry>, a: Answer)
    requires seen < cur.seqNo && seen != Min(was.seqNo, cur.seqNo)
    ensures Numbered(history) && |history| == cur.seqNo
    ensures EmailAnswer(a, mb, Some(cur), Some(was), history, fetch, None)
    ensures !a.hasMore && !ReportsEvents(a, fetch, history[seen..])
  {
    var told := Min(was.seqNo, cur.seqNo);
    history := Telling(cur.seqNo, told, seen);
    TellsApart(cur.seqNo, told, seen);
    FoldsAboveToken(was, cur, history, history);
    assert history[0].state == 1;
    a := SomeAnswer(RawDelta(mb, was, cur, history), fetch);
    AnswerListsDelta(a, mb, was, cur, history, fetch, None);
    NoFolderUpdatesX(mb, was, cur, cur.folders.Keys + was.folders.Keys);
    assert "x" !in AnswerDelta(a).updated;
  }

  lemma SomeAnswer(d: Delta, fetch: string -> Option<nat>) returns (a: Answer)
    ensures DeltaAnswer(a, d, fetch, None) && !a.hasMore
  {
    var created := SomeList(Visible(fetch, d.created));
    var updated := SomeList(d.updated);
    var destroyed := SomeList(d.destroyed);
    a := Answer(created, updated, destroyed, CurrentState, false);
  }

  lemma {:induction false} SomeList(s: set<string>) returns (q: seq<string>)
    ensures Lists(q, s)
  {
    if s == {} {
      q := [];
    } else {
      var x :| x in s;
      var q' := SomeList(s - {x});
      q := Sort(q' + [x]);
      assert s == (s - {x}) + {x};
    }
  }

  /** An answer without hasMore respects a positive maxChanges. */
  lemma LimitHeld(a: Answer, mb: Bytes -> string, snapshot: Option<CompositeState>, token: Option<CompositeState>,
                  log: seq<Entry>, fetch: string -> Option<nat>, maxChanges: Option<Uint64>)
    requires EmailAnswer(a, mb, snapshot, token, log, fetch, maxChanges) && !a.hasMore
    requires maxChanges.Some? && maxChanges.value > 0
    ensures |a.created| + |a.updated| + |a.destroyed| <= maxChanges.value
  {
    if snapshot.Some? && token.Some? {
      var d := RawDelta(mb, token.value, snapshot.value, log);
      ListsMeaning(a.created, Visible(fetch, d.created));
      ListsMeaning(a.updated, d.updated);
      ListsMeaning(a.destroyed, d.destroyed);
    }
  }

  /** The answer does not depend on the order in which Go ranges over its maps. */
  lemma AnswerUnique(a: Answer, b: Answer, mb: Bytes -> string, snapshot: Option<CompositeState>,
                     token: Option<CompositeState>, log: seq<Entry>, fetch: string -> Option<nat>,
                     maxChanges: Option<Uint64>)
    requires EmailAnswer(a, mb, snapshot, token, log, fetch, maxChanges)
    requires EmailAnswer(b, mb, snapshot, token, log, fetch, maxChanges)
    ensures a == b
  {
    if !a.hasMore && snapshot.Some? {
      var d := RawDelta(mb, token.value, snapshot.value, log);
      ListsMeaning(a.created, Visible(fetch, d.created));
      ListsMeaning(a.updated, d.updated);
      ListsMeaning(a.destroyed, d.destroyed);
    }
  }

  // ----- the seen-counter heuristic -----

  ghost function UnseenOf(m: Mailbox): set<Uint32> { set u | u in m && !m[u] }

  ghost predicate Counted(fs: FolderState, m: Mailbox) { fs.messages == |m| && fs.unseen == |UnseenOf(m)| }

  /** Every old message is still there with its old seen flag. */
  ghost predicate PureAppend(m: Mailbox, m': Mailbox) { forall u :: u in m ==> u in m' && m'[u] == m[u] }

  lemma AppendSizes(m: Mailbox, m': Mailbox)
    requires PureAppend(m, m')
    ensures 0 <= |UnseenOf(m')| - |UnseenOf(m)| <= |m'| - |m|
  {
    var arrived, unread := m'.Keys - m.Keys, UnseenOf(m') - UnseenOf(m);
    assert m'.Keys == m.Keys + arrived;
    assert UnseenOf(m') == UnseenOf(m) + unread;
    assert unread <= arrived;
    SubsetSize(unread, arrived);
  }

  /** The test is false whenever the messages that were there are unchanged. */
  lemma CountersSound(p: FolderState, n: FolderState, m: Mailbox, m': Mailbox)
    requires Counted(p, m) && Counted(n, m') && PureAppend(m, m')
    ensures !CountersMoved(p, n)
  {
    AppendSizes(m, m');
  }

  ghost function Range(lo: Uint32, hi: Uint32): (r: set<Uint32>)
    ensures forall u :: u in r <==> lo < u <= hi
    ensures lo <= hi ==> |r| == hi - lo
    decreases hi
  {
    if lo < hi then Range(lo, hi - 1) + {hi} else {}
  }

  /** Messages 1 to `total`, of which exactly those in `unread` are unseen. */
  ghost function Build(total: Uint32, unread: set<Uint32>): (m: Mailbox)
    requires unread <= Range(0, total)
    ensures m.Keys == Range(0, total) && |m| == total && UnseenOf(m) == unread
  {
    var m: Mailbox := map u | u in Range(0, total) :: u !in unread;
    assert m.Keys == Range(0, total);
    m
  }

  lemma AppendWitness(p: FolderState, n: FolderState)
    requires p.unseen <= p.messages && !CountersMoved(p, n)
    ensures exists m, m' :: Counted(p, m) && Counted(n, m') && PureAppend(m, m')
  {
    var more := n.unseen - p.unseen;
    var first, later := Range(0, p.unseen), Range(p.messages, p.messages + more);
    assert first !! later;
    var m, m' := Build(p.messages, first), Build(n.messages, first + later);
    assert PureAppend(m, m') by {
      forall u | u in m ensures u in m' && m'[u] == m[u] {
        assert u in UnseenOf(m) <==> u in UnseenOf(m');
      }
    }
    assert Counted(p, m) && Counted(n, m');
  }

  /** The test is as sharp as counters allow: it fires exactly when no append-only change could
      have produced the two pairs of counters. */
  lemma CountersExact(p: FolderState, n: FolderState)
    requires p.unseen <= p.messages
    ensures CountersMoved(p, n) <==> !exists m, m' :: Counted(p, m) && Counted(n, m') && PureAppend(m, m')
  {
    forall m, m' | Counted(p, m) && Counted(n, m') && PureAppend(m, m') ensures !CountersMoved(p, n) {
      CountersSound(p, n, m, m');
    }
    if !CountersMoved(p, n) { AppendWitness(p, n); }
  }

  /** Hence appending messages never reports an old message of the folder as updated. */
  lemma AppendsNotUpdated(a: Answer, mb: Bytes -> string, was: CompositeState, cur: CompositeState,
                          fetch: string -> Option<nat>, maxChanges: Option<Uint64>,
                          f: Bytes, u: Uint32, m: Mailbox, m': Mailbox)
    requires EmailAnswer(a, mb, Some(cur), Some(was), [], fetch, maxChanges) && !a.hasMore
    requires was.seqNo == 0 && cur.seqNo == 0 && Kept(was, cur, f) && cur.folders[f].highestModSeq == 0
    requires DistinctIds(mb, was.folders.Keys + cur.folders.Keys)
    requires Counted(was.folders[f], m) && Counted(cur.folders[f], m') && PureAppend(m, m')
    ensures EmailIDFor(mb(f), u) !in a.updated
  {
    AnswerListsDelta(a, mb, was, cur, [], fetch, maxChanges);
    CountersSound(was.folders[f], cur.folders[f], m, m');
    UpdatesOwn(mb, was, cur, f, u);
    assert EmailIDFor(mb(f), u) !in AnswerDelta(a).updated;
  }

  /** Folders only update ids of their own. */
  lemma UpdatesOwn(mb: Bytes -> string, was: CompositeState, cur: CompositeState, f: Bytes, u: Uint32)
    requires DistinctIds(mb, was.folders.Keys + cur.folders.Keys) && f in was.folders
    requires DeltaOf(mb, was, cur, f).updated == {}
    ensures EmailIDFor(mb(f), u) !in DeltaOfAll(mb, was, cur, cur.folders.Keys + was.folders.Keys).updated
  {
    var id := EmailIDFor(mb(f), u);
    forall g | g in cur.folders.Keys + was.folders.Keys ensures id !in DeltaOf(mb, was, cur, g).updated {
      if id in DeltaOf(mb, was, cur, g).updated { OwnIds(mb, was, cur, g, f, u); }
    }
  }
}
