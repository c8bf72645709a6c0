/** The per-account email mutation log (jmap/imapsmtp/backend.go) and the fold EmailChanges runs
    over it (jmap/imapsmtp/change_tracker.go). */
module ChangeLog {

  datatype Action = Create | Update | Destroy | Other

  datatype Entry = Entry(id: string, action: Action, state: nat)

  datatype Delta = Delta(created: set<string>, updated: set<string>, destroyed: set<string>)

  const NO_CHANGE := Delta({}, {}, {})

  /** What a client does with an answer: drop the destroyed ids, then add the created ones. */
  function Apply(ids: set<string>, d: Delta): set<string> { ids - d.destroyed + d.created }

  /** The id set after the logged events happen one by one. */
  function Replay(ids: set<string>, log: seq<Entry>): set<string> {
    if log == [] then ids
    else
      var before, e := Replay(ids, log[..|log| - 1]), log[|log| - 1];
      match e.action
      case Create => before + {e.id}
      case Destroy => before - {e.id}
      case _ => before
  }

  function Record(d: Delta, e: Entry): Delta {
    match e.action
    case Create => Delta(d.created + {e.id}, d.updated - {e.id}, d.destroyed - {e.id})
    case Update => if e.id in d.created then d else d.(updated := d.updated + {e.id})
    case Destroy => Delta(d.created - {e.id}, d.updated - {e.id}, d.destroyed + {e.id})
    case Other => d
  }

  function Fold(log: seq<Entry>): Delta {
    if log == [] then NO_CHANGE else Record(Fold(log[..|log| - 1]), log[|log| - 1])
  }

  /** The entries a token with sequence number `seqNo` has not seen. */
  function Since(log: seq<Entry>, seqNo: nat): (r: seq<Entry>)
  {
    if log == [] then []
    else Since(log[..|log| - 1], seqNo) + if log[|log| - 1].state > seqNo then [log[|log| - 1]] else []
  }

  method FoldLog(mutations: seq<Entry>, seqNo: nat) returns (d: Delta)
    ensures d == Fold(Since(mutations, seqNo))
  {
    var createdSet, updatedSet, destroyedSet: set<string> := {}, {}, {};
    for i := 0 to |mutations|
      invariant Delta(createdSet, updatedSet, destroyedSet) == Fold(Since(mutations[..i], seqNo))
    {
      var entry := mutations[i];
      assert mutations[..i + 1][..i] == mutations[..i];
      ghost var seen := Since(mutations[..i], seqNo);
      assert Since(mutations[..i + 1], seqNo) == if entry.state > seqNo then seen + [entry] else seen;
      if entry.state > seqNo {
        assert (seen + [entry])[..|seen|] == seen;
        match entry.action {
          case Create =>
            createdSet := createdSet + {entry.id};
            updatedSet := updatedSet - {entry.id};
            destroyedSet := destroyedSet - {entry.id};
          case Update =>
            if entry.id !in createdSet {
              updatedSet := updatedSet + {entry.id};
            }
          case Destroy =>
            createdSet := createdSet - {entry.id};
            updatedSet := updatedSet - {entry.id};
            destroyedSet := destroyedSet + {entry.id};
          case Other =>
        }
      }
    }
    assert mutations[..|mutations|] == mutations;
    d := Delta(createdSet, updatedSet, destroyedSet);
  }

  // ----- the replay law -----

  /** Applying the folded log to any starting set has the effect of the events themselves. */
  lemma {:induction false} ReplayLaw(ids: set<string>, log: seq<Entry>)
    ensures Apply(ids, Fold(log)) == Replay(ids, log)
  {
    if log != [] { ReplayLaw(ids, log[..|log| - 1]); }
  }

  lemma {:induction false} ReplayConcat(ids: set<string>, a: seq<Entry>, b: seq<Entry>)
    ensures Replay(ids, a + b) == Replay(Replay(ids, a), b)
  {
    if b == [] {
      assert a + b == a;
    } else {
      ReplayConcat(ids, a, b[..|b| - 1]);
      assert (a + b)[..|a + b| - 1] == a + b[..|b| - 1];
    }
  }

  /** Folding the log in two stretches reaches the set that one fold over both reaches. */
  lemma TwoStepSync(ids: set<string>, a: seq<Entry>, b: seq<Entry>)
    ensures Apply(Apply(ids, Fold(a)), Fold(b)) == Apply(ids, Fold(a + b))
  {
    ReplayLaw(ids, a);
    ReplayLaw(Apply(ids, Fold(a)), b);
    ReplayLaw(ids, a + b);
    ReplayConcat(ids, a, b);
  }

  // ----- what the three sets mean -----

  ghost predicate Is(e: Entry, id: string, a: Action) { e.id == id && e.action == a }

  /** No entry after position `i` creates or destroys `id`. */
  ghost predicate SettledAfter(log: seq<Entry>, id: string, i: nat) {
    forall k :: i < k < |log| ==> !Is(log[k], id, Create) && !Is(log[k], id, Destroy)
  }

  ghost predicate EndsIn(log: seq<Entry>, id: string, a: Action) {
    exists i :: 0 <= i < |log| && Is(log[i], id, a) && SettledAfter(log, id, i)
  }

  lemma {:induction false} FoldMeaning(log: seq<Entry>, id: string)
    ensures id in Fold(log).created <==> EndsIn(log, id, Create)
    ensures id in Fold(log).destroyed <==> EndsIn(log, id, Destroy)
    ensures id in Fold(log).updated <==> EndsIn(log, id, Update) && !EndsIn(log, id, Create)
  {
    if log != [] {
      var n := |log| - 1;
      var init, e := log[..n], log[n];
      FoldMeaning(init, id);
      EndsInStep(log, id, Create);
      EndsInStep(log, id, Destroy);
      EndsInStep(log, id, Update);
    }
  }

  lemma EndsInStep(log: seq<Entry>, id: string, a: Action)
    requires log != []
    ensures var e := log[|log| - 1];
            EndsIn(log, id, a) <==>
            Is(e, id, a) || (!Is(e, id, Create) && !Is(e, id, Destroy) && EndsIn(log[..|log| - 1], id, a))
  {
    var n := |log| - 1;
    var init, e := log[..n], log[n];
    if Is(e, id, a) { assert SettledAfter(log, id, n); }
    if EndsIn(log, id, a) && !Is(e, id, a) {
      var i :| 0 <= i < |log| && Is(log[i], id, a) && SettledAfter(log, id, i);
      assert Is(init[i], id, a) && SettledAfter(init, id, i);
    }
    if EndsIn(init, id, a) && !Is(e, id, Create) && !Is(e, id, Destroy) {
      var i :| 0 <= i < |init| && Is(init[i], id, a) && SettledAfter(init, id, i);
      assert SettledAfter(log, id, i) by {
        forall k | i < k < |log| ensures !Is(log[k], id, Create) && !Is(log[k], id, Destroy) {
          if k < n { assert log[k] == init[k]; }
        }
      }
      assert Is(log[i], id, a);
    }
  }

  /** An update of an id that the log destroyed earlier and never touched again. */
  ghost predicate UpdateAfterDestroy(log: seq<Entry>, id: string) {
    exists i, j :: 0 <= i < j < |log| && Is(log[i], id, Destroy) && Is(log[j], id, Update) && SettledAfter(log, id, i)
  }

  /** Created never meets the other two sets; updated meets destroyed exactly on the ids that
      were updated after they were destroyed for good. */
  lemma FoldDisjoint(log: seq<Entry>)
    ensures Fold(log).created !! Fold(log).updated
    ensures Fold(log).created !! Fold(log).destroyed
    ensures Fold(log).updated !! Fold(log).destroyed <==> !exists id :: UpdateAfterDestroy(log, id)
  {
    var d := Fold(log);
    forall id: string
      ensures !(id in d.created && id in d.updated) && !(id in d.created && id in d.destroyed)
      ensures id in d.updated && id in d.destroyed <==> UpdateAfterDestroy(log, id)
    {
      FoldMeaning(log, id);
      EndsMeet(log, id);
    }
  }

  lemma EndsMeet(log: seq<Entry>, id: string)
    ensures !(EndsIn(log, id, Create) && EndsIn(log, id, Destroy))
    ensures EndsIn(log, id, Update) && EndsIn(log, id, Destroy) <==> UpdateAfterDestroy(log, id)
  {
    if UpdateAfterDestroy(log, id) {
      var i, j :| 0 <= i < j < |log| && Is(log[i], id, Destroy) && Is(log[j], id, Update) && SettledAfter(log, id, i);
      assert SettledAfter(log, id, j);
    }
  }

  // ----- how the log is kept -----

  ghost predicate Numbered(history: seq<Entry>) {
    forall i :: 0 <= i < |history| ==> history[i].state == i + 1
  }

  /** `log` holds the newest events of `history`, none missing in between. */
  ghost predicate IsSuffix(log: seq<Entry>, history: seq<Entry>) {
    |log| <= |history| && log == history[|history| - |log|..]
  }

  /** One account's counter and log, with the counter also kept in the extension store. The store
      may be missing or fail at any call: `loads` and `saves` say whether it works this time. */
  class EmailLog {
    var emailSeq: nat
    var mutations: seq<Entry>
    var stored: nat
    /** The events counted by the numbering in force, and by the number in the store. */
    ghost var history: seq<Entry>
    ghost var saved: seq<Entry>

    ghost predicate Valid()
      reads this
    {
      && Numbered(history) && Numbered(saved) && stored == |saved|
      && (emailSeq == 0 ==> mutations == [])
      && (emailSeq != 0 ==> emailSeq == |history|)
      && IsSuffix(mutations, history)
    }

    /** The numbering the next call goes by: the one in memory, else the stored one, else none. */
    ghost function Numbering(loads: bool): seq<Entry>
      reads this
    {
      if emailSeq != 0 then history else if loads then saved else []
    }

    constructor ()
      ensures Valid() && history == [] && saved == [] && mutations == []
    {
      emailSeq, mutations, stored, history, saved := 0, [], 0, [], [];
    }

    method Load(loads: bool)
      requires Valid()
      modifies this`emailSeq, this`history
      ensures Valid() && emailSeq == |history| && history == old(Numbering(loads))
    {
      if emailSeq > 0 {
        return;
      }
      if loads {
        emailSeq := stored;
      }
      history := if loads then saved else [];
    }

    method RecordMutation(id: string, action: Action, loads: bool, saves: bool)
      requires Valid()
      modifies this
      ensures Valid() && emailSeq == |history|
      ensures history == old(Numbering(loads)) + [Entry(id, action, |old(Numbering(loads))| + 1)]
      ensures mutations == old(mutations) + [history[|history| - 1]]
      ensures saved == if saves then history else old(saved)
    {
      Load(loads);
      emailSeq := emailSeq + 1;
      var entry := Entry(id, action, emailSeq);
      mutations := mutations + [entry];
      history := history + [entry];
      if saves {
        stored, saved := emailSeq, history;
      }
    }

    /** The number of events, which stays what it was unless the memory was dropped and the store
        does not have it. */
    method GetEmailSeq(loads: bool) returns (n: nat)
      requires Valid()
      modifies this`emailSeq, this`history
      ensures Valid() && n == |history| && mutations == old(mutations)
      ensures history == old(history) <==>
              old(emailSeq) != 0 || (if loads then old(saved) == old(history) else old(history) == [])
    {
      Load(loads);
      n := emailSeq;
    }

    /** Account eviction forgets the in-memory counter and log. */
    method Forget()
      requires Valid()
      modifies this`emailSeq, this`mutations
      ensures Valid() && mutations == [] && forall loads :: Numbering(loads) == if loads then saved else []
    {
      emailSeq, mutations := 0, [];
    }
  }

  /** Filtering a gap-free log by a sequence number it reaches back to keeps exactly the newer
      part of the history. */
  lemma {:induction false} SinceIsSuffix(log: seq<Entry>, history: seq<Entry>, seqNo: nat)
    requires Numbered(history) && IsSuffix(log, history)
    requires |history| - |log| <= seqNo <= |history|
    ensures Since(log, seqNo) == history[seqNo..]
  {
    if log != [] {
      var n := |history| - 1;
      if seqNo <= n {
        assert log[..|log| - 1] == history[..n][n - (|log| - 1)..];
        SinceIsSuffix(log[..|log| - 1], history[..n], seqNo);
        assert log[|log| - 1] == history[n];
        assert history[seqNo..] == history[..n][seqNo..] + [history[n]];
      } else {
        SinceNothing(log, seqNo);
        forall i | 0 <= i < |log| ensures log[i].state <= seqNo {}
      }
    }
  }

  lemma {:induction false} SinceNothing(log: seq<Entry>, seqNo: nat)
    ensures (forall i :: 0 <= i < |log| ==> log[i].state <= seqNo) ==> Since(log, seqNo) == []
  {
    if log != [] { SinceNothing(log[..|log| - 1], seqNo); }
  }
}
