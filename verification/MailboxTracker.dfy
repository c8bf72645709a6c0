/** MailboxChanges (jmap/imapsmtp/change_tracker.go): the delta between the folders of a token and
    the folders of the live snapshot. */
module MailboxTracker {
  import opened GoStrings
  import opened ChangeTracker
  import opened ChangeLog
  import opened ChangeTheorems

  function Ids(mb: Bytes -> string, names: seq<Bytes>): (r: seq<string>) {
    if names == [] then [] else Ids(mb, names[..|names| - 1]) + [mb(names[|names| - 1])]
  }

  /** `q` is the sorted list of the ids of `names`, one per name. */
  ghost predicate ListsIds(q: seq<string>, mb: Bytes -> string, names: set<Bytes>) {
    exists order: seq<Bytes> :: multiset(order) == multiset(names) && q == Sort(Ids(mb, order))
  }

  predicate MarkersDiffer(p: FolderState, n: FolderState) {
    || p.uidValidity != n.uidValidity || p.messages != n.messages
    || p.unseen != n.unseen || p.highestModSeq != n.highestModSeq
  }

  ghost function UpdatedFolders(was: CompositeState, cur: CompositeState): set<Bytes> {
    set f | f in cur.folders && f in was.folders && MarkersDiffer(was.folders[f], cur.folders[f])
  }

  ghost predicate MailboxAnswer(a: Answer, mb: Bytes -> string, snapshot: Option<CompositeState>,
                                token: Option<CompositeState>, maxChanges: Option<Uint64>)
  {
    if snapshot.None? then a == UNREACHABLE
    else if token.None? then a == Refusal(CurrentState)
    else
      var was, cur := token.value, snapshot.value;
      var created, destroyed := cur.folders.Keys - was.folders.Keys, was.folders.Keys - cur.folders.Keys;
      var updated := UpdatedFolders(was, cur);
      if OverLimit(maxChanges, |created| + |updated| + |destroyed|) then a == Refusal(CurrentState)
      else
        && ListsIds(a.created, mb, created) && ListsIds(a.updated, mb, updated)
        && ListsIds(a.destroyed, mb, destroyed) && a.newState == CurrentState && !a.hasMore
  }

  lemma PickedSorted(ids: seq<string>, mb: Bytes -> string, order: seq<Bytes>, p: Bytes -> bool,
                     names: set<Bytes>, picked: set<Bytes>)
    requires multiset(order) == multiset(names) && ids == Ids(mb, Pick(order, p))
    requires forall f :: f in picked <==> f in names && p(f)
    ensures ListsIds(Sort(ids), mb, picked) && |Sort(ids)| == |picked|
  {
    PickMultiset(order, p, names);
    assert picked == Picked(names, p);
    ListedLength(Sort(ids), mb, picked, Pick(order, p));
  }

  lemma {:induction false} IdsLength(mb: Bytes -> string, names: seq<Bytes>)
    ensures |Ids(mb, names)| == |names|
  {
    if names != [] { IdsLength(mb, names[..|names| - 1]); }
  }

  lemma ListedLength(q: seq<string>, mb: Bytes -> string, names: set<Bytes>, order: seq<Bytes>)
    requires multiset(order) == multiset(names) && q == Sort(Ids(mb, order))
    ensures |q| == |names|
  {
    IdsLength(mb, order);
    assert |q| == |multiset(q)| == |multiset(Ids(mb, order))|;
    assert |order| == |multiset(order)|;
  }

  const COUNTS := ["totalEmails", "unreadEmails"]

  /** `properties` names what may have changed about updated folders; it comes with a full answer. */
  method MailboxChanges(mb: Bytes -> string, snapshot: Option<CompositeState>, token: Option<CompositeState>,
                        maxChanges: Option<Uint64>) returns (a: Answer, properties: seq<string>)
    ensures MailboxAnswer(a, mb, snapshot, token, maxChanges)
    ensures properties == if snapshot.Some? && token.Some? && !a.hasMore then ["totalEmails", "unreadEmails"] else []
    ensures snapshot.None? ==> a == Answer([], [], [], SinceState, false)
    ensures snapshot.Some? && (token.None? || a.hasMore) ==> a == Answer([], [], [], CurrentState, true)
  {
    if snapshot.None? {
      return UNREACHABLE, [];
    }
    if token.None? {
      return Refusal(CurrentState), [];
    }
    var was, current := token.value, snapshot.value;
    var isNew := (f: Bytes) => f !in was.folders;
    var differs := (f: Bytes) =>
      f in was.folders && f in current.folders && MarkersDiffer(was.folders[f], current.folders[f]);
    var gone := (f: Bytes) => f !in current.folders;
    var order := AnyOrder(current.folders.Keys);
    var created := Collect(mb, order, isNew);
    var updated := Collect(mb, order, differs);
    var oldOrder := AnyOrder(was.folders.Keys);
    var destroyed := Collect(mb, oldOrder, gone);
    PickedSorted(created, mb, order, isNew, current.folders.Keys, current.folders.Keys - was.folders.Keys);
    PickedSorted(updated, mb, order, differs, current.folders.Keys, UpdatedFolders(was, current));
    PickedSorted(destroyed, mb, oldOrder, gone, was.folders.Keys, was.folders.Keys - current.folders.Keys);
    created, updated, destroyed := Sort(created), Sort(updated), Sort(destroyed);
    if OverLimit(maxChanges, |created| + |updated| + |destroyed|) {
      return Refusal(CurrentState), [];
    }
    return Answer(created, updated, destroyed, CurrentState, false), COUNTS;
  }

  /** Go visits the keys of a map in an order of its own. */
  method AnyOrder(names: set<Bytes>) returns (order: seq<Bytes>)
    ensures multiset(order) == multiset(names)
  {
    order := [];
    var rest := names;
    while rest != {}
      invariant rest <= names && multiset(order) == multiset(names - rest)
    {
      var f :| f in rest;
      order, rest := order + [f], rest - {f};
      assert names - rest == (names - (rest + {f})) + {f};
    }
  }

  function Pick(order: seq<Bytes>, p: Bytes -> bool): seq<Bytes> {
    if order == [] then []
    else
      var f := order[|order| - 1];
      Pick(order[..|order| - 1], p) + if p(f) then [f] else []
  }

  ghost function Picked(names: set<Bytes>, p: Bytes -> bool): set<Bytes> { set f | f in names && p(f) }

  lemma PickedWithout(names: set<Bytes>, p: Bytes -> bool, f: Bytes)
    requires f in names
    ensures Picked(names, p) == Picked(names - {f}, p) + if p(f) then {f} else {}
  {
  }

  /** A list of the elements of a set, without its last one, lists the set without that one. */
  lemma InitMultiset(order: seq<Bytes>, names: set<Bytes>)
    requires multiset(order) == multiset(names) && order != []
    ensures var f := order[|order| - 1];
            f in names && multiset(order[..|order| - 1]) == multiset(names - {f})
  {
    var init, f := order[..|order| - 1], order[|order| - 1];
    assert order == init + [f];
    assert f in multiset(order);
    assert multiset(init) == multiset(order) - multiset{f};
  }

  lemma EmptyMultiset(order: seq<Bytes>, names: set<Bytes>)
    requires multiset(order) == multiset(names) && order == []
    ensures names == {}
  {
    assert forall f :: f in names ==> f in multiset(order);
  }

  lemma {:induction false} PickMultiset(order: seq<Bytes>, p: Bytes -> bool, names: set<Bytes>)
    requires multiset(order) == multiset(names)
    ensures multiset(Pick(order, p)) == multiset(Picked(names, p))
    decreases |order|
  {
    if order == [] {
      EmptyMultiset(order, names);
    } else {
      var f := order[|order| - 1];
      InitMultiset(order, names);
      PickMultiset(order[..|order| - 1], p, names - {f});
      PickedWithout(names, p, f);
    }
  }

  /** The ids of the folders that satisfy `p`, appended in visiting order. */
  method Collect(mb: Bytes -> string, order: seq<Bytes>, p: Bytes -> bool) returns (ids: seq<string>)
    ensures ids == Ids(mb, Pick(order, p))
  {
    ids := [];
    for i := 0 to |order|
      invariant ids == Ids(mb, Pick(order[..i], p))
    {
      var f := order[i];
      assert order[..i + 1][..i] == order[..i];
      ghost var picked := Pick(order[..i], p);
      if p(f) {
        ids := ids + [mb(f)];
        assert (picked + [f])[..|picked|] == picked;
        assert Pick(order[..i + 1], p) == picked + [f];
      } else {
        assert Pick(order[..i + 1], p) == picked;
      }
    }
    assert order[..|order|] == order;
  }

  // ----- the exact folder delta -----

  ghost function IdSet(mb: Bytes -> string, names: set<Bytes>): set<string> { set f | f in names :: mb(f) }

  lemma {:induction false} IdsMultiset(mb: Bytes -> string, order: seq<Bytes>, names: set<Bytes>)
    requires multiset(order) == multiset(names) && DistinctIds(mb, names)
    ensures multiset(Ids(mb, order)) == multiset(IdSet(mb, names))
    decreases |order|
  {
    if order == [] {
      EmptyMultiset(order, names);
    } else {
      var f := order[|order| - 1];
      InitMultiset(order, names);
      IdsMultiset(mb, order[..|order| - 1], names - {f});
      assert mb(f) !in IdSet(mb, names - {f});
      assert IdSet(mb, names) == IdSet(mb, names - {f}) + {mb(f)};
    }
  }

  /** Listing is independent of the order in which the folder map is visited. */
  lemma ListsIdsMeaning(q: seq<string>, mb: Bytes -> string, names: set<Bytes>)
    requires ListsIds(q, mb, names) && DistinctIds(mb, names)
    ensures Lists(q, IdSet(mb, names))
  {
    var order :| multiset(order) == multiset(names) && q == Sort(Ids(mb, order));
    IdsMultiset(mb, order, names);
  }

  lemma ListedSet(q: seq<string>, mb: Bytes -> string, names: set<Bytes>)
    requires ListsIds(q, mb, names) && DistinctIds(mb, names)
    ensures Sorted(q) && NoDup(q) && Elems(q) == IdSet(mb, names)
  {
    ListsIdsMeaning(q, mb, names);
    ListsMeaning(q, IdSet(mb, names));
  }

  /** With distinct ids the answer is the exact delta: the ids of the new, of the changed and of the
      missing folders and no others, sorted, without repetition, pairwise disjoint, carrying the old id
      set to the new one, and reporting a surviving folder as updated exactly when anything but its
      UIDNEXT differs. */
  lemma ExactFolderDelta(a: Answer, mb: Bytes -> string, was: CompositeState, cur: CompositeState,
                         maxChanges: Option<Uint64>)
    requires MailboxAnswer(a, mb, Some(cur), Some(was), maxChanges) && !a.hasMore
    requires DistinctIds(mb, was.folders.Keys + cur.folders.Keys)
    ensures Sorted(a.created) && Sorted(a.updated) && Sorted(a.destroyed)
    ensures NoDup(a.created) && NoDup(a.updated) && NoDup(a.destroyed)
    ensures Elems(a.created) == IdSet(mb, cur.folders.Keys - was.folders.Keys)
    ensures Elems(a.destroyed) == IdSet(mb, was.folders.Keys - cur.folders.Keys)
    ensures Elems(a.updated) == IdSet(mb, UpdatedFolders(was, cur))
    ensures Elems(a.created) !! Elems(a.updated) !! Elems(a.destroyed)
    ensures Apply(IdSet(mb, was.folders.Keys), AnswerDelta(a)) == IdSet(mb, cur.folders.Keys)
    ensures forall f :: f in was.folders && f in cur.folders ==>
              (mb(f) in a.updated <==> was.folders[f] != cur.folders[f].(uidNext := was.folders[f].uidNext))
  {
    ListedSet(a.created, mb, cur.folders.Keys - was.folders.Keys);
    ListedSet(a.updated, mb, UpdatedFolders(was, cur));
    ListedSet(a.destroyed, mb, was.folders.Keys - cur.folders.Keys);
    IdsApart(mb, cur.folders.Keys - was.folders.Keys, UpdatedFolders(was, cur), was.folders.Keys + cur.folders.Keys);
    IdsApart(mb, cur.folders.Keys - was.folders.Keys, was.folders.Keys - cur.folders.Keys,
             was.folders.Keys + cur.folders.Keys);
    IdsApart(mb, UpdatedFolders(was, cur), was.folders.Keys - cur.folders.Keys, was.folders.Keys + cur.folders.Keys);
    forall f | f in was.folders && f in cur.folders
      ensures mb(f) in a.updated <==> MarkersDiffer(was.folders[f], cur.folders[f])
    {
      IdMember(mb, UpdatedFolders(was, cur), was.folders.Keys + cur.folders.Keys, f);
      assert mb(f) in a.updated <==> mb(f) in Elems(a.updated);
    }
    ApplyFolders(mb, was.folders.Keys, cur.folders.Keys);
  }

  lemma IdMember(mb: Bytes -> string, names: set<Bytes>, all: set<Bytes>, f: Bytes)
    requires DistinctIds(mb, all) && names <= all && f in all
    ensures mb(f) in IdSet(mb, names) <==> f in names
  {
  }

  lemma IdsApart(mb: Bytes -> string, a: set<Bytes>, b: set<Bytes>, all: set<Bytes>)
    requires DistinctIds(mb, all) && a <= all && b <= all && a !! b
    ensures IdSet(mb, a) !! IdSet(mb, b)
  {
  }

  lemma ApplyFolders(mb: Bytes -> string, was: set<Bytes>, cur: set<Bytes>)
    requires DistinctIds(mb, was + cur)
    ensures IdSet(mb, was) - IdSet(mb, was - cur) + IdSet(mb, cur - was) == IdSet(mb, cur)
  {
    forall f | f in was + cur
      ensures mb(f) in IdSet(mb, cur) <==> f in cur
      ensures mb(f) in IdSet(mb, was - cur) <==> f in was - cur
    {
      IdMember(mb, cur, was + cur, f);
      IdMember(mb, was - cur, was + cur, f);
    }
  }

  // ----- independence of map order -----

  ghost function NamedBy(mb: Bytes -> string, names: set<Bytes>, id: string): set<Bytes> {
    set f | f in names && mb(f) == id
  }

  /** An id is listed as often as there are folders that have it. */
  lemma {:induction false} IdCount(mb: Bytes -> string, order: seq<Bytes>, names: set<Bytes>, id: string)
    requires multiset(order) == multiset(names)
    ensures multiset(Ids(mb, order))[id] == |NamedBy(mb, names, id)|
    decreases |order|
  {
    if order == [] {
      EmptyMultiset(order, names);
    } else {
      var f := order[|order| - 1];
      InitMultiset(order, names);
      IdCount(mb, order[..|order| - 1], names - {f}, id);
      var rest := NamedBy(mb, names - {f}, id);
      assert NamedBy(mb, names, id) == if mb(f) == id then rest + {f} else rest;
    }
  }

  lemma ListsIdsUnique(q: seq<string>, q': seq<string>, mb: Bytes -> string, names: set<Bytes>)
    requires ListsIds(q, mb, names) && ListsIds(q', mb, names)
    ensures q == q'
  {
    var o :| multiset(o) == multiset(names) && q == Sort(Ids(mb, o));
    var o' :| multiset(o') == multiset(names) && q' == Sort(Ids(mb, o'));
    SameIds(mb, o, o', names);
    SortedUnique(q, q');
  }

  lemma SameIds(mb: Bytes -> string, o: seq<Bytes>, o': seq<Bytes>, names: set<Bytes>)
    requires multiset(o) == multiset(names) && multiset(o') == multiset(names)
    ensures multiset(Ids(mb, o)) == multiset(Ids(mb, o'))
  {
    forall id ensures multiset(Ids(mb, o))[id] == multiset(Ids(mb, o'))[id] {
      IdCount(mb, o, names, id);
      IdCount(mb, o', names, id);
    }
  }

  /** The answer does not depend on the order in which the folder maps are visited, even where folders
      share an id. */
  lemma MailboxAnswerUnique(a: Answer, b: Answer, mb: Bytes -> string, snapshot: Option<CompositeState>,
                            token: Option<CompositeState>, maxChanges: Option<Uint64>)
    requires MailboxAnswer(a, mb, snapshot, token, maxChanges) && MailboxAnswer(b, mb, snapshot, token, maxChanges)
    ensures a == b
  {
    if snapshot.Some? && token.Some? && !a.hasMore {
      var was, cur := token.value, snapshot.value;
      ListsIdsUnique(a.created, b.created, mb, cur.folders.Keys - was.folders.Keys);
      ListsIdsUnique(a.updated, b.updated, mb, UpdatedFolders(was, cur));
      ListsIdsUnique(a.destroyed, b.destroyed, mb, was.folders.Keys - cur.folders.Keys);
    }
  }

  /** All or nothing: beyond a positive maxChanges no id is reported. */
  lemma AllOrNothing(a: Answer, mb: Bytes -> string, was: CompositeState, cur: CompositeState,
                     maxChanges: Option<Uint64>)
    requires MailboxAnswer(a, mb, Some(cur), Some(was), maxChanges)
    ensures var total := |cur.folders.Keys - was.folders.Keys| + |UpdatedFolders(was, cur)|
                         + |was.folders.Keys - cur.folders.Keys|;
            && (a.hasMore <==> maxChanges.Some? && 0 < maxChanges.value < total)
            && |a.created| + |a.updated| + |a.destroyed| == if a.hasMore then 0 else total
  {
    if !a.hasMore {
      var c :| multiset(c) == multiset(cur.folders.Keys - was.folders.Keys) && a.created == Sort(Ids(mb, c));
      var u :| multiset(u) == multiset(UpdatedFolders(was, cur)) && a.updated == Sort(Ids(mb, u));
      var d :| multiset(d) == multiset(was.folders.Keys - cur.folders.Keys) && a.destroyed == Sort(Ids(mb, d));
      ListedLength(a.created, mb, cur.folders.Keys - was.folders.Keys, c);
      ListedLength(a.updated, mb, UpdatedFolders(was, cur), u);
      ListedLength(a.destroyed, mb, was.folders.Keys - cur.folders.Keys, d);
    }
  }
}
