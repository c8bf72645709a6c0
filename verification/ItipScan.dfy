/** The scan for scheduling mail at every sync (jmap/itip_processor.go). The mail and blob backends
    are arbitrary; a `Sync` fixes their answers during one scan. */
module ItipScan {
  import opened GoStrings

  datatype Mailbox = Mailbox(id: string, role: Option<string>, name: string)

  datatype Email = Email(id: string, mailboxIds: set<string>)

  /** A message body: not fetched, without a calendar part, or with one. */
  datatype Blob = Missing | NoCalendar | Calendar

  datatype Sync = Sync(
    configured: bool, found: Option<seq<string>>, mailboxes: Option<seq<Option<Mailbox>>>,
    emails: Option<seq<Option<Email>>>, blob: string -> Blob, markable: string -> bool, lower: string -> string)

  /** The messages carrying the marker, and those handed to the calendar so far, in order. */
  datatype State = State(marked: set<string>, applied: seq<string>)

  predicate SkippedName(s: string) { s == "sent" || s == "drafts" || s == "trash" }

  predicate SkipsMailbox(y: Sync, mb: Mailbox) {
    (mb.role.Some? && SkippedName(y.lower(mb.role.value))) || SkippedName(y.lower(mb.name))
  }

  ghost function SkippedAmong(y: Sync, mbs: seq<Option<Mailbox>>): set<string> {
    set mb | mb in mbs && mb.Some? && SkipsMailbox(y, mb.value) :: mb.value.id
  }

  /** When the listing fails, nothing is skipped. */
  ghost function SkipIds(y: Sync): set<string> {
    if y.mailboxes.None? then {} else SkippedAmong(y, y.mailboxes.value)
  }

  /** The mailboxes left out are those listed with one of three roles or names, in any case. */
  lemma SkippedExactly(y: Sync, id: string)
    ensures id in SkipIds(y) <==>
            y.mailboxes.Some? && exists mb: Mailbox :: Some(mb) in y.mailboxes.value && mb.id == id && OneOfThree(y, mb)
  {
    forall mb: Mailbox ensures SkipsMailbox(y, mb) <==> OneOfThree(y, mb) {}
  }

  ghost predicate OneOfThree(y: Sync, mb: Mailbox) {
    || (mb.role.Some? && y.lower(mb.role.value) in ["sent", "drafts", "trash"])
    || y.lower(mb.name) in ["sent", "drafts", "trash"]
  }

  /** The message lies in sent, drafts or trash and nowhere else. */
  predicate OnlySkipped(skip: set<string>, em: Email) { em.mailboxIds != {} && em.mailboxIds <= skip }

  function Mark(y: Sync, st: State, id: string): State {
    if y.markable(id) then st.(marked := st.marked + {id}) else st
  }

  function EmailStep(y: Sync, skip: set<string>, st: State, em: Option<Email>): State {
    if em.None? then st
    else if OnlySkipped(skip, em.value) then Mark(y, st, em.value.id)
    else match y.blob(em.value.id)
      case Missing => st
      case NoCalendar => Mark(y, st, em.value.id)
      case Calendar => Mark(y, st.(applied := st.applied + [em.value.id]), em.value.id)
  }

  function EmailsStep(y: Sync, skip: set<string>, st: State, ems: seq<Option<Email>>): State {
    if ems == [] then st else EmailStep(y, skip, EmailsStep(y, skip, st, ems[..|ems| - 1]), ems[|ems| - 1])
  }

  /** The scan gets to look at messages. */
  predicate Looks(y: Sync) { y.configured && y.found.Some? && y.found.value != [] && y.emails.Some? }

  ghost function SyncStep(st: State, y: Sync): State {
    if Looks(y) then EmailsStep(y, SkipIds(y), st, y.emails.value) else st
  }

  // ----- the code -----

  class Processor {
    var marked: set<string>
    var applied: seq<string>

    ghost function Current(): State
      reads this
    {
      State(marked, applied)
    }

    constructor ()
      ensures Current() == State({}, [])
    {
      marked, applied := {}, [];
    }

    method MarkProcessed(y: Sync, id: string)
      modifies this`marked
      ensures Current() == Mark(y, old(Current()), id)
    {
      if y.markable(id) {
        marked := marked + {id};
      }
    }

    method ProcessMailbox(y: Sync)
      modifies this
      ensures Current() == SyncStep(old(Current()), y)
    {
      if !y.configured || y.found.None? || |y.found.value| == 0 {
        return;
      }
      var skip := SkipMailboxes(y);
      if y.emails.None? {
        return;
      }
      var ems := y.emails.value;
      for i := 0 to |ems|
        invariant Current() == EmailsStep(y, skip, old(Current()), ems[..i])
      {
        assert ems[..i + 1][..i] == ems[..i];
        if ems[i].None? {
          continue;
        }
        var em := ems[i].value;
        if em.mailboxIds != {} && em.mailboxIds <= skip {
          MarkProcessed(y, em.id);
          continue;
        }
        var blob := y.blob(em.id);
        if blob == Missing {
          continue;
        }
        if blob == NoCalendar {
          MarkProcessed(y, em.id);
          continue;
        }
        applied := applied + [em.id];
        MarkProcessed(y, em.id);
      }
      assert ems[..|ems|] == ems;
    }
  }

  method SkipMailboxes(y: Sync) returns (skip: set<string>)
    ensures skip == SkipIds(y)
  {
    skip := {};
    if y.mailboxes.Some? {
      var mbs := y.mailboxes.value;
      for i := 0 to |mbs|
        invariant skip == SkippedAmong(y, mbs[..i])
      {
        assert mbs[..i + 1] == mbs[..i] + [mbs[i]];
        if mbs[i].Some? && SkipsMailbox(y, mbs[i].value) {
          skip := skip + {mbs[i].value.id};
        }
      }
      assert mbs[..|mbs|] == mbs;
    }
  }

  // ----- over every sequence of syncs -----

  ghost predicate Has(ems: seq<Option<Email>>, id: string) { exists em: Email :: Some(em) in ems && em.id == id }

  ghost predicate DistinctEmails(ems: seq<Option<Email>>) {
    forall i, j :: 0 <= i < j < |ems| && ems[i].Some? && ems[j].Some? ==> ems[i].value.id != ems[j].value.id
  }

  /** The scan finds only messages without the marker, the emails returned are distinct and among
      those found, and marking works. */
  ghost predicate Honest(st: State, y: Sync) {
    Looks(y) ==>
      && (forall id :: id in y.found.value ==> id !in st.marked)
      && DistinctEmails(y.emails.value)
      && (forall em: Email :: Some(em) in y.emails.value ==> em.id in y.found.value && y.markable(em.id))
  }

  ghost function RunSyncs(st: State, ys: seq<Sync>): State {
    if ys == [] then st else SyncStep(RunSyncs(st, ys[..|ys| - 1]), ys[|ys| - 1])
  }

  ghost predicate HonestRun(st: State, ys: seq<Sync>) {
    forall i :: 0 <= i < |ys| ==> Honest(RunSyncs(st, ys[..i]), ys[i])
  }

  ghost predicate Inv(st: State) { NoDup(st.applied) && forall id :: id in st.applied ==> id in st.marked }

  /** Within one scan: marks only grow and only on emails looked at, and what is applied is then
      marked and was not applied before. */
  lemma {:induction false} EmailsKeep(y: Sync, skip: set<string>, st: State, ems: seq<Option<Email>>)
    requires Inv(st) && DistinctEmails(ems)
    requires forall em: Email :: Some(em) in ems ==> em.id !in st.marked && y.markable(em.id)
    ensures var r := EmailsStep(y, skip, st, ems);
            Inv(r) && forall id :: id in r.marked ==> id in st.marked || Has(ems, id)
  {
    if ems != [] {
      var n := |ems| - 1;
      var init, last := ems[..n], ems[n];
      assert forall em: Email :: Some(em) in init ==> Some(em) in ems;
      EmailsKeep(y, skip, st, init);
      var mid := EmailsStep(y, skip, st, init);
      if last.Some? {
        assert last in ems;
        forall em: Email | Some(em) in init ensures em.id != last.value.id {
          var i :| 0 <= i < n && init[i] == Some(em);
          assert ems[i] == Some(em);
        }
      }
      forall id | id in EmailsStep(y, skip, st, ems).marked ensures id in st.marked || Has(ems, id) {
        if id in mid.marked && id !in st.marked {
          var em: Email :| Some(em) in init && em.id == id;
          assert Some(em) in ems;
        }
      }
    }
  }

  lemma {:induction false} RunKeeps(st: State, ys: seq<Sync>)
    requires Inv(st) && HonestRun(st, ys)
    ensures Inv(RunSyncs(st, ys))
  {
    if ys != [] {
      var n := |ys| - 1;
      assert forall i :: 0 <= i < n ==> ys[..n][..i] == ys[..i];
      RunKeeps(st, ys[..n]);
      var mid := RunSyncs(st, ys[..n]);
      assert Honest(mid, ys[n]);
      if Looks(ys[n]) { EmailsKeep(ys[n], SkipIds(ys[n]), mid, ys[n].emails.value); }
    }
  }

  /** Over every sequence of scans, each message reaches the calendar at most once. */
  lemma AppliedAtMostOnce(ys: seq<Sync>)
    requires HonestRun(State({}, []), ys)
    ensures NoDup(RunSyncs(State({}, []), ys).applied)
  {
    RunKeeps(State({}, []), ys);
  }

  /** The email is one the scan hands to the calendar. */
  ghost predicate HandsOver(y: Sync, skip: set<string>, ems: seq<Option<Email>>, em: Email) {
    Some(em) in ems && !OnlySkipped(skip, em) && y.blob(em.id).Calendar?
  }

  lemma {:induction false} AppliedInScan(y: Sync, skip: set<string>, st: State, ems: seq<Option<Email>>, id: string)
    ensures id in EmailsStep(y, skip, st, ems).applied <==>
            id in st.applied || exists em :: HandsOver(y, skip, ems, em) && em.id == id
  {
    if ems != [] {
      var n := |ems| - 1;
      assert ems == ems[..n] + [ems[n]];
      AppliedInScan(y, skip, st, ems[..n], id);
      forall em
        ensures HandsOver(y, skip, ems, em) <==>
                HandsOver(y, skip, ems[..n], em) || HandsOver(y, skip, [ems[n]], em)
      {}
      if ems[n].Some? {
        assert HandsOver(y, skip, [ems[n]], ems[n].value) <==>
               !OnlySkipped(skip, ems[n].value) && y.blob(ems[n].value.id).Calendar?;
      }
    }
  }

  /** Over every sequence of scans, a message reaches the calendar exactly when some scan gets to look
      at it with its calendar part while it lies somewhere else than in the sent, drafts and trash
      mailboxes which that scan was told of. */
  lemma {:induction false} AppliedExactly(ys: seq<Sync>, id: string)
    ensures id in RunSyncs(State({}, []), ys).applied <==>
            exists i, em :: 0 <= i < |ys| && Looks(ys[i]) && HandsOver(ys[i], SkipIds(ys[i]), ys[i].emails.value, em)
                            && em.id == id
  {
    if ys != [] {
      var n := |ys| - 1;
      AppliedExactly(ys[..n], id);
      assert forall i :: 0 <= i < n ==> ys[..n][i] == ys[i];
      if Looks(ys[n]) {
        AppliedInScan(ys[n], SkipIds(ys[n]), RunSyncs(State({}, []), ys[..n]), ys[n].emails.value, id);
      }
    }
  }

  /** Mail that lies only in sent, drafts and trash is safe exactly as long as the mailboxes can be
      listed: a scan applies it if and only if the listing fails and it has a calendar part. `mbs` are
      the mailboxes of the account. */
  lemma SkippedMailExactly(st: State, y: Sync, mbs: seq<Option<Mailbox>>, em: Email)
    requires Looks(y) && DistinctEmails(y.emails.value) && Some(em) in y.emails.value
    requires y.mailboxes.Some? ==> y.mailboxes.value == mbs
    requires OnlySkipped(SkippedAmong(y, mbs), em)
    ensures em.id in SyncStep(st, y).applied <==> em.id in st.applied || (y.mailboxes.None? && y.blob(em.id).Calendar?)
  {
    AppliedInScan(y, SkipIds(y), st, y.emails.value, em.id);
    forall em' | HandsOver(y, SkipIds(y), y.emails.value, em') && em'.id == em.id ensures em' == em {
      SameEmail(y.emails.value, em, em');
    }
    assert HandsOver(y, SkipIds(y), y.emails.value, em) <==> y.mailboxes.None? && y.blob(em.id).Calendar?;
  }

  lemma SameEmail(ems: seq<Option<Email>>, a: Email, b: Email)
    requires DistinctEmails(ems) && Some(a) in ems && Some(b) in ems && a.id == b.id
    ensures a == b
  {
    var i :| 0 <= i < |ems| && ems[i] == Some(a);
    var j :| 0 <= j < |ems| && ems[j] == Some(b);
  }

  lemma {:induction false} MarksGrow(y: Sync, skip: set<string>, st: State, ems: seq<Option<Email>>)
    ensures st.marked <= EmailsStep(y, skip, st, ems).marked
  {
    if ems != [] { MarksGrow(y, skip, st, ems[..|ems| - 1]); }
  }

  /** A message looked at stays unmarked only if its body could not be fetched. */
  lemma {:induction false} UnmarkedOnlyIfMissing(y: Sync, skip: set<string>, st: State, ems: seq<Option<Email>>,
                                                 em: Email)
    requires Some(em) in ems && y.markable(em.id)
    ensures em.id in EmailsStep(y, skip, st, ems).marked || (y.blob(em.id).Missing? && !OnlySkipped(skip, em))
  {
    var n := |ems| - 1;
    var mid := EmailsStep(y, skip, st, ems[..n]);
    if Some(em) in ems[..n] {
      UnmarkedOnlyIfMissing(y, skip, st, ems[..n], em);
    } else {
      assert ems == ems[..n] + [ems[n]];
    }
  }

  /** The scan looked at the email, and skipped it or got its body. */
  ghost predicate DoneWith(y: Sync, skip: set<string>, ems: seq<Option<Email>>, em: Email) {
    Some(em) in ems && (OnlySkipped(skip, em) || !y.blob(em.id).Missing?)
  }

  lemma {:induction false} MarkedInScan(y: Sync, skip: set<string>, st: State, ems: seq<Option<Email>>, id: string)
    ensures id in EmailsStep(y, skip, st, ems).marked <==>
            id in st.marked || (y.markable(id) && exists em: Email :: DoneWith(y, skip, ems, em) && em.id == id)
  {
    if ems != [] {
      var n := |ems| - 1;
      assert ems == ems[..n] + [ems[n]];
      MarkedInScan(y, skip, st, ems[..n], id);
      forall em
        ensures DoneWith(y, skip, ems, em) <==> DoneWith(y, skip, ems[..n], em) || DoneWith(y, skip, [ems[n]], em)
      {}
      if ems[n].Some? {
        assert DoneWith(y, skip, [ems[n]], ems[n].value) <==>
               OnlySkipped(skip, ems[n].value) || !y.blob(ems[n].value.id).Missing?;
      }
    }
  }

  /** Over every sequence of scans, a message carries the marker exactly when some scan that could mark it
      looked at it, and either skipped it for lying only in sent, drafts and trash or got its body. */
  lemma {:induction false} MarkedExactly(ys: seq<Sync>, id: string)
    ensures id in RunSyncs(State({}, []), ys).marked <==>
            exists i, em: Email ::
              && 0 <= i < |ys| && Looks(ys[i]) && ys[i].markable(id)
              && DoneWith(ys[i], SkipIds(ys[i]), ys[i].emails.value, em) && em.id == id
  {
    if ys != [] {
      var n := |ys| - 1;
      MarkedExactly(ys[..n], id);
      assert forall i :: 0 <= i < n ==> ys[..n][i] == ys[i];
      if Looks(ys[n]) {
        MarkedInScan(ys[n], SkipIds(ys[n]), RunSyncs(State({}, []), ys[..n]), ys[n].emails.value, id);
      }
    }
  }

  /** A found message that a scan leaves unmarked was not returned, or its body was missing. */
  lemma LeftForNextSync(st: State, y: Sync, id: string)
    requires Looks(y) && Honest(st, y) && id in y.found.value && id !in SyncStep(st, y).marked
    ensures !Has(y.emails.value, id) || y.blob(id).Missing?
  {
    if Has(y.emails.value, id) {
      var em: Email :| Some(em) in y.emails.value && em.id == id;
      UnmarkedOnlyIfMissing(y, SkipIds(y), st, y.emails.value, em);
    }
  }

  // ----- what the search must do -----

  /** The ids found at a sync, given which messages are marked. The search may depend on the sync, for
      mail comes and goes. */
  type Search = (nat, set<string>) -> seq<string>

  /** Emails are returned for the ids asked, some perhaps not, and marking works. */
  ghost predicate Follows(search: Search, n: nat, st: State, y: Sync) {
    Looks(y) ==>
      && y.found.value == search(n, st.marked) && |y.emails.value| == |y.found.value|
      && (forall i :: 0 <= i < |y.emails.value| && y.emails.value[i].Some? ==>
           y.emails.value[i].value.id == y.found.value[i])
      && (forall em: Email :: Some(em) in y.emails.value ==> y.markable(em.id))
  }

  ghost predicate FollowRun(search: Search, n: nat, st: State, ys: seq<Sync>) {
    forall i :: 0 <= i < |ys| ==> Follows(search, n + i, RunSyncs(st, ys[..i]), ys[i])
  }

  /** From any moment on and whatever else the backends do, no message is applied a second time. */
  ghost predicate AtMostOnce(search: Search) {
    forall n, st, ys :: Inv(st) && FollowRun(search, n, st, ys) ==> NoDup(RunSyncs(st, ys).applied)
  }

  /** The search returns no marked message and none twice. */
  ghost predicate FindsFresh(search: Search) { forall n, marked :: Fresh(search(n, marked), marked) }

  ghost predicate Fresh(found: seq<string>, marked: set<string>) {
    NoDup(found) && forall id :: id in found ==> id !in marked
  }

  /** Each message is applied at most once, against every behaviour of the backends, exactly when the
      search returns no marked message and none twice. */
  lemma AtMostOnceExactly(search: Search)
    ensures AtMostOnce(search) <==> FindsFresh(search)
  {
    if FindsFresh(search) {
      forall n, st, ys | Inv(st) && FollowRun(search, n, st, ys) ensures NoDup(RunSyncs(st, ys).applied) {
        FollowedIsHonest(search, n, st, ys);
        RunKeeps(st, ys);
      }
    } else {
      var n, marked :| !Fresh(search(n, marked), marked);
      StaleSearch(search, n, marked);
    }
  }

  lemma FollowedIsHonest(search: Search, n: nat, st: State, ys: seq<Sync>)
    requires FindsFresh(search) && FollowRun(search, n, st, ys)
    ensures HonestRun(st, ys)
  {
    forall i | 0 <= i < |ys| ensures Honest(RunSyncs(st, ys[..i]), ys[i]) {
      assert Follows(search, n + i, RunSyncs(st, ys[..i]), ys[i]);
      FreshIsHonest(search, n + i, RunSyncs(st, ys[..i]), ys[i]);
    }
  }

  lemma FreshIsHonest(search: Search, n: nat, st: State, y: Sync)
    requires FindsFresh(search) && Follows(search, n, st, y)
    ensures Honest(st, y)
  {
    if Looks(y) { assert Fresh(search(n, st.marked), st.marked); }
  }

  /** All messages found, none of them in a mailbox. */
  function Loose(found: seq<string>): seq<Option<Email>> {
    seq(|found|, i requires 0 <= i < |found| => Some(Email(found[i], {})))
  }

  /** A scan that returns everything found, each with a calendar part. */
  function FullScan(found: seq<string>): Sync {
    Sync(true, Some(found), None, Some(Loose(found)), _ => Calendar, _ => true, name => name)
  }

  lemma {:induction false} AllApplied(y: Sync, st: State, found: seq<string>)
    requires forall id :: y.blob(id).Calendar?
    ensures EmailsStep(y, {}, st, Loose(found)).applied == st.applied + found
  {
    if found != [] {
      var n := |found| - 1;
      assert Loose(found)[..n] == Loose(found[..n]);
      AllApplied(y, st, found[..n]);
    }
  }

  lemma FullScanRuns(search: Search, n: nat, st: State)
    requires search(n, st.marked) != []
    ensures var ys := [FullScan(search(n, st.marked))];
            FollowRun(search, n, st, ys) && RunSyncs(st, ys).applied == st.applied + search(n, st.marked)
  {
    var y := FullScan(search(n, st.marked));
    assert [y][..0] == [] && RunSyncs(st, []) == st;
    AllApplied(y, st, search(n, st.marked));
    assert Follows(search, n + 0, RunSyncs(st, [y][..0]), [y][0]);
  }

  /** What may have been applied before, so that applying `found` repeats a message. */
  lemma AppliedBefore(found: seq<string>, marked: set<string>) returns (st: State)
    requires !Fresh(found, marked)
    ensures st.marked == marked && Inv(st) && !NoDup(st.applied + found) && found != []
  {
    if NoDup(found) {
      var id :| id in found && id in marked;
      st := State(marked, [id]);
      var k :| 0 <= k < |found| && found[k] == id;
      assert (st.applied + found)[0] == (st.applied + found)[k + 1];
    } else {
      st := State(marked, []);
      assert [] + found == found;
    }
  }

  /** A search that returns a marked message, or one twice, has it applied again. */
  lemma StaleSearch(search: Search, n: nat, marked: set<string>)
    requires !Fresh(search(n, marked), marked)
    ensures exists st, ys :: Inv(st) && FollowRun(search, n, st, ys) && !NoDup(RunSyncs(st, ys).applied)
  {
    var st := AppliedBefore(search(n, marked), marked);
    FullScanRuns(search, n, st);
  }

  lemma OwnMarks(found: seq<string>)
    ensures found != [] ==> !Fresh(found, Elems(found))
  {
    if found != [] { assert found[0] in found && found[0] in Elems(found); }
  }

  /** The plain text query takes no notice of marks, so it is safe only where it never finds anything. */
  lemma PlainQueryExactly(search: Search)
    requires forall n, m, m' :: search(n, m) == search(n, m')
    ensures AtMostOnce(search) <==> forall n, m :: search(n, m) == []
  {
    AtMostOnceExactly(search);
    if FindsFresh(search) {
      forall n, m ensures search(n, m) == [] {
        var found := search(n, m);
        OwnMarks(found);
        assert search(n, Elems(found)) == found && Fresh(search(n, Elems(found)), Elems(found));
      }
    }
  }

  /** For instance, a scan that finds its message again applies it at every sync. */
  lemma PlainQueryReapplies(y: Sync, em: Email)
    requires Looks(y) && y.emails == Some([Some(em)]) && y.mailboxes == None && y.blob(em.id).Calendar?
    ensures RunSyncs(State({}, []), [y, y]).applied == [em.id, em.id]
  {
    var first := SyncStep(State({}, []), y);
    assert [y, y][..1] == [y] && [y][..0] == [];
    assert RunSyncs(State({}, []), []) == State({}, []);
    assert RunSyncs(State({}, []), [y]) == first;
    OneEmail(y, State({}, []), em);
    OneEmail(y, first, em);
  }

  /** Marking must work, too: a failed mark is only logged, and a message that is found again because it
      still has no mark is applied again. */
  lemma FailedMarkReapplies(y: Sync, em: Email)
    requires Looks(y) && y.found == Some([em.id]) && y.emails == Some([Some(em)]) && y.mailboxes == None
    requires y.blob(em.id).Calendar? && !y.markable(em.id)
    ensures RunSyncs(State({}, []), [y]).marked == {} && RunSyncs(State({}, []), [y, y]).applied == [em.id, em.id]
  {
    PlainQueryReapplies(y, em);
    assert [y][..0] == [] && RunSyncs(State({}, []), []) == State({}, []);
    assert [Some(em)][..0] == [];
    assert EmailsStep(y, {}, State({}, []), [Some(em)]) == EmailStep(y, {}, State({}, []), Some(em));
  }

  lemma OneEmail(y: Sync, st: State, em: Email)
    requires Looks(y) && y.emails == Some([Some(em)]) && y.mailboxes == None && y.blob(em.id).Calendar?
    ensures SyncStep(st, y).applied == st.applied + [em.id]
  {
    assert [Some(em)][..0] == [];
    assert EmailsStep(y, {}, st, [Some(em)]) == EmailStep(y, {}, EmailsStep(y, {}, st, []), Some(em));
  }
}
