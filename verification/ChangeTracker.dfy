/** Change calculation over IMAP folder snapshots (jmap/imapsmtp/change_tracker.go): turns an old
    state token, a live snapshot and the mutation log into created, updated and destroyed ids
    (section 5.2 of RFC 8620). `mb` is the mailbox-id function, `MailIds.MailboxIDForName` with
    its lower-casing fixed. */
module ChangeTracker {
  import opened GoStrings
  import opened MailIds
  import opened ChangeLog

  type Uint64 = x: int | 0 <= x < 0x1_0000_0000_0000_0000

  datatype FolderState = FolderState(
    uidValidity: Uint32, uidNext: Uint32, highestModSeq: Uint64, messages: Uint32, unseen: Uint32)

  datatype CompositeState = CompositeState(folders: map<Bytes, FolderState>, seqNo: Uint64)

  /** The state string of an answer: the caller's own token, the fresh snapshot's, or "". */
  datatype NewState = SinceState | CurrentState | NoState

  datatype Answer = Answer(
    created: seq<string>, updated: seq<string>, destroyed: seq<string>, newState: NewState, hasMore: bool)

  function Refusal(newState: NewState): Answer { Answer([], [], [], newState, true) }

  const UNREACHABLE := Answer([], [], [], SinceState, false)

  /** `q` lists each element of `s` once, in order; there is only one such list. */
  ghost predicate Lists(q: seq<string>, s: set<string>) { Sorted(q) && multiset(q) == multiset(s) }

  lemma ListsMeaning(q: seq<string>, s: set<string>)
    requires Lists(q, s)
    ensures |q| == |s| && Elems(q) == s && NoDup(q)
    ensures forall q' :: Lists(q', s) ==> q' == q
  {
    assert |q| == |multiset(q)| == |multiset(s)| == |s|;
    forall x ensures x in q <==> x in s { assert x in q <==> x in multiset(q); }
    forall i, j | 0 <= i < j < |q| ensures q[i] != q[j] {
      assert q == q[..j] + [q[j]] + q[j + 1..];
      assert multiset(q[..j])[q[j]] == 0 by { assert multiset(s)[q[j]] <= 1; }
      assert q[..j][i] in multiset(q[..j]);
    }
    forall q' | Lists(q', s) ensures q' == q { SortedUnique(q', q); }
  }

  /** Ranging over a Go map visits its keys in any order; sorting hides which. */
  method SortedKeys(s: set<string>) returns (q: seq<string>)
    ensures Lists(q, s) && |q| == |s|
  {
    q := [];
    var rest := s;
    while rest != {}
      invariant rest <= s && multiset(q) == multiset(s - rest)
    {
      var id :| id in rest;
      q, rest := q + [id], rest - {id};
      assert s - rest == (s - (rest + {id})) + {id};
    }
    q := Sort(q);
    assert |q| == |multiset(q)| == |multiset(s)|;
  }

  predicate OverLimit(maxChanges: Option<Uint64>, total: nat) {
    maxChanges.Some? && maxChanges.value > 0 && total > maxChanges.value
  }

  // ----- EmailChanges: the specification -----

  function Uids(mbID: string, lo: Uint32, hi: Uint32): set<string> {
    set u: Uint32 | lo <= u < hi :: EmailIDFor(mbID, u)
  }

  function Union(a: Delta, b: Delta): Delta {
    Delta(a.created + b.created, a.updated + b.updated, a.destroyed + b.destroyed)
  }

  /** Whether the counters of a folder moved in a way that appending messages cannot explain. */
  predicate CountersMoved(p: FolderState, n: FolderState) {
    var newMsgs := n.messages - p.messages;
    var unseenDiff := n.unseen - p.unseen;
    (newMsgs == 0 && unseenDiff != 0) || unseenDiff < 0 || unseenDiff > newMsgs
  }

  /** What one folder of the current snapshot contributes, given its state in the token. */
  function FolderDelta(mbID: string, o: Option<FolderState>, n: FolderState, noSeq: bool): Delta {
    match o
    case None => Delta(Uids(mbID, 1, n.uidNext), {}, {})
    case Some(p) =>
      if p.uidValidity != n.uidValidity then
        Delta(Uids(mbID, 1, n.uidNext), {}, Uids(mbID, 1, p.uidNext))
      else
        Delta(Uids(mbID, p.uidNext, n.uidNext),
              if noSeq && (n.highestModSeq > p.highestModSeq || (n.highestModSeq == 0 && CountersMoved(p, n)))
              then Uids(mbID, 1, p.uidNext) else {},
              {})
  }

  function At<K, V>(m: map<K, V>, k: K): Option<V> { if k in m then Some(m[k]) else None }

  function DeltaOf(mb: Bytes -> string, was: CompositeState, cur: CompositeState, f: Bytes): Delta {
    if f in cur.folders then
      FolderDelta(mb(f), At(was.folders, f), cur.folders[f], was.seqNo == 0 && cur.seqNo == 0)
    else if f in was.folders then
      Delta({}, {}, Uids(mb(f), 1, was.folders[f].uidNext))
    else NO_CHANGE
  }

  ghost function DeltaOfAll(mb: Bytes -> string, was: CompositeState, cur: CompositeState, fs: set<Bytes>): Delta {
    Delta(set f, id | f in fs && id in DeltaOf(mb, was, cur, f).created :: id,
          set f, id | f in fs && id in DeltaOf(mb, was, cur, f).updated :: id,
          set f, id | f in fs && id in DeltaOf(mb, was, cur, f).destroyed :: id)
  }

  /** The log reaches back to the token. */
  predicate HasHistory(was: CompositeState, cur: CompositeState, log: seq<Entry>) {
    if log != [] then log[0].state <= Next(was.seqNo) else was.seqNo == cur.seqNo
  }

  /** Adding one in 64 bits. */
  function Next(n: Uint64): Uint64 { if n == 0xFFFF_FFFF_FFFF_FFFF then 0 else n + 1 }

  function LogDelta(was: CompositeState, cur: CompositeState, log: seq<Entry>): Delta {
    if HasHistory(was, cur, log) then Fold(Since(log, was.seqNo)) else NO_CHANGE
  }

  ghost function RawDelta(mb: Bytes -> string, was: CompositeState, cur: CompositeState, log: seq<Entry>): Delta {
    Union(LogDelta(was, cur, log), DeltaOfAll(mb, was, cur, cur.folders.Keys + was.folders.Keys))
  }

  /** A created id in Trash or Drafts whose fetch succeeded and found nothing is left out.
      `fetch(id)` is the number of emails found, or `None` on an error. */
  predicate Hidden(fetch: string -> Option<nat>, id: string) {
    var parsed := ParseEmailID(id);
    parsed.Some? && (parsed.value.0 == "mb-trash" || parsed.value.0 == "mb-drafts") && fetch(id) == Some(0)
  }

  ghost function Visible(fetch: string -> Option<nat>, ids: set<string>): set<string> {
    set id | id in ids && !Hidden(fetch, id)
  }

  /** How a delta is answered: listed in full, or refused when it is over the limit. */
  ghost predicate DeltaAnswer(a: Answer, d: Delta, fetch: string -> Option<nat>, maxChanges: Option<Uint64>) {
    var created := Visible(fetch, d.created);
    if OverLimit(maxChanges, |created| + |d.updated| + |d.destroyed|) then a == Refusal(NoState)
    else
      && Lists(a.created, created) && Lists(a.updated, d.updated) && Lists(a.destroyed, d.destroyed)
      && a.newState == CurrentState && !a.hasMore
  }

  /** What EmailChanges may answer; at most one answer meets it. */
  ghost predicate EmailAnswer(a: Answer, mb: Bytes -> string, snapshot: Option<CompositeState>,
                              token: Option<CompositeState>, log: seq<Entry>,
                              fetch: string -> Option<nat>, maxChanges: Option<Uint64>)
  {
    if snapshot.None? then a == UNREACHABLE
    else if token.None? then a == Refusal(CurrentState)
    else
      var was, cur := token.value, snapshot.value;
      if !HasHistory(was, cur, log) && was.seqNo < cur.seqNo then a == Refusal(CurrentState)
      else DeltaAnswer(a, RawDelta(mb, was, cur, log), fetch, maxChanges)
  }

  // ----- EmailChanges: the code -----

  method AddUids(ids: set<string>, mbID: string, lo: Uint32, hi: Uint32) returns (r: set<string>)
    ensures r == ids + Uids(mbID, lo, hi)
  {
    r := ids;
    var uid := lo;
    while uid < hi
      invariant lo <= uid && (uid <= hi || uid == lo)
      invariant r == ids + Uids(mbID, lo, uid)
    {
      r := r + {EmailIDFor(mbID, uid)};
      uid := uid + 1;
      assert Uids(mbID, lo, uid) == Uids(mbID, lo, uid - 1) + {EmailIDFor(mbID, uid - 1)};
    }
  }

  method AddFolder(d: Delta, mbID: string, o: Option<FolderState>, n: FolderState, noSeq: bool) returns (r: Delta)
    ensures r == Union(d, FolderDelta(mbID, o, n, noSeq))
  {
    var createdSet, updatedSet, destroyedSet := d.created, d.updated, d.destroyed;
    if o.None? {
      if n.uidNext > 1 {
        createdSet := AddUids(createdSet, mbID, 1, n.uidNext);
      }
    } else if o.value.uidValidity != n.uidValidity {
      destroyedSet := AddUids(destroyedSet, mbID, 1, o.value.uidNext);
      createdSet := AddUids(createdSet, mbID, 1, n.uidNext);
    } else {
      var p := o.value;
      if n.uidNext > p.uidNext {
        createdSet := AddUids(createdSet, mbID, p.uidNext, n.uidNext);
      }
      if noSeq {
        if n.highestModSeq > p.highestModSeq {
          updatedSet := AddUids(updatedSet, mbID, 1, p.uidNext);
        } else if n.highestModSeq == 0 {
          if CountersMoved(p, n) {
            updatedSet := AddUids(updatedSet, mbID, 1, p.uidNext);
          }
        }
      }
    }
    r := Delta(createdSet, updatedSet, destroyedSet);
  }

  lemma DeltaOfAllStep(mb: Bytes -> string, was: CompositeState, cur: CompositeState, fs: set<Bytes>, f: Bytes)
    ensures DeltaOfAll(mb, was, cur, fs + {f}) == Union(DeltaOfAll(mb, was, cur, fs), DeltaOf(mb, was, cur, f))
  {
  }

  lemma UnionAssociates(a: Delta, b: Delta, c: Delta)
    ensures Union(Union(a, b), c) == Union(a, Union(b, c))
  {
  }

  method AddCurrent(d: Delta, mb: Bytes -> string, was: CompositeState, cur: CompositeState) returns (r: Delta)
    ensures r == Union(d, DeltaOfAll(mb, was, cur, cur.folders.Keys))
  {
    r := d;
    var rest := cur.folders.Keys;
    while rest != {}
      invariant rest <= cur.folders.Keys
      invariant r == Union(d, DeltaOfAll(mb, was, cur, cur.folders.Keys - rest))
    {
      var f :| f in rest;
      ghost var done := cur.folders.Keys - rest;
      rest := rest - {f};
      r := AddFolder(r, mb(f), At(was.folders, f), cur.folders[f], was.seqNo == 0 && cur.seqNo == 0);
      assert cur.folders.Keys - rest == done + {f};
      DeltaOfAllStep(mb, was, cur, done, f);
      UnionAssociates(d, DeltaOfAll(mb, was, cur, done), DeltaOf(mb, was, cur, f));
    }
    assert cur.folders.Keys - rest == cur.folders.Keys;
  }

  method AddDeleted(d: Delta, mb: Bytes -> string, was: CompositeState, cur: CompositeState) returns (r: Delta)
    ensures r == Union(d, DeltaOfAll(mb, was, cur, was.folders.Keys - cur.folders.Keys))
  {
    r := d;
    ghost var gone := was.folders.Keys - cur.folders.Keys;
    var rest := was.folders.Keys;
    while rest != {}
      invariant rest <= was.folders.Keys
      invariant r == Union(d, DeltaOfAll(mb, was, cur, gone - rest))
    {
      var f :| f in rest;
      ghost var done := gone - rest;
      rest := rest - {f};
      assert gone - rest == if f in gone then done + {f} else done;
      if f !in cur.folders {
        var destroyedSet := AddUids(r.destroyed, mb(f), 1, was.folders[f].uidNext);
        r := r.(destroyed := destroyedSet);
        DeltaOfAllStep(mb, was, cur, done, f);
        UnionAssociates(d, DeltaOfAll(mb, was, cur, done), DeltaOf(mb, was, cur, f));
      }
    }
    assert gone - rest == gone;
  }

  lemma DeltaOfAllSplit(mb: Bytes -> string, was: CompositeState, cur: CompositeState)
    ensures Union(DeltaOfAll(mb, was, cur, cur.folders.Keys),
                  DeltaOfAll(mb, was, cur, was.folders.Keys - cur.folders.Keys))
            == DeltaOfAll(mb, was, cur, cur.folders.Keys + was.folders.Keys)
  {
  }

  method AddFolders(d: Delta, mb: Bytes -> string, was: CompositeState, cur: CompositeState) returns (r: Delta)
    ensures r == Union(d, DeltaOfAll(mb, was, cur, cur.folders.Keys + was.folders.Keys))
  {
    r := AddCurrent(d, mb, was, cur);
    r := AddDeleted(r, mb, was, cur);
    UnionAssociates(d, DeltaOfAll(mb, was, cur, cur.folders.Keys),
                    DeltaOfAll(mb, was, cur, was.folders.Keys - cur.folders.Keys));
    DeltaOfAllSplit(mb, was, cur);
  }

  method DropHidden(fetch: string -> Option<nat>, ids: set<string>) returns (r: set<string>)
    ensures r == Visible(fetch, ids)
  {
    r := {};
    var rest := ids;
    while rest != {}
      invariant rest <= ids && r == Visible(fetch, ids - rest)
    {
      var id :| id in rest;
      rest := rest - {id};
      if !Hidden(fetch, id) {
        r := r + {id};
      }
    }
  }

  method EmailChanges(mb: Bytes -> string, snapshot: Option<CompositeState>, token: Option<CompositeState>,
                      mutations: seq<Entry>, fetch: string -> Option<nat>, maxChanges: Option<Uint64>)
    returns (a: Answer)
    ensures EmailAnswer(a, mb, snapshot, token, mutations, fetch, maxChanges)
  {
    if snapshot.None? {
      return UNREACHABLE;
    }
    if token.None? {
      return Refusal(CurrentState);
    }
    var was, current := token.value, snapshot.value;
    var hasMutationHistory := HasHistory(was, current, mutations);
    var d := NO_CHANGE;
    if hasMutationHistory {
      d := FoldLog(mutations, was.seqNo);
    }
    if !hasMutationHistory && was.seqNo < current.seqNo {
      return Refusal(CurrentState);
    }
    d := AddFolders(d, mb, was, current);
    a := AnswerWith(d, fetch, maxChanges);
  }

  method AnswerWith(d: Delta, fetch: string -> Option<nat>, maxChanges: Option<Uint64>) returns (a: Answer)
    ensures DeltaAnswer(a, d, fetch, maxChanges)
  {
    var createdSet := DropHidden(fetch, d.created);
    var created := SortedKeys(createdSet);
    var updated := SortedKeys(d.updated);
    var destroyed := SortedKeys(d.destroyed);
    if OverLimit(maxChanges, |created| + |updated| + |destroyed|) {
      return Refusal(NoState);
    }
    return Answer(created, updated, destroyed, CurrentState, false);
  }
}
