/** What result-reference resolution does, in terms of the JSON trees alone (section 3.7 of RFC 8620). */
module ReferenceTheorems {
  import opened GoStrings
  import opened ResultReferences

  ghost predicate Marked(k: string) { k != "" && k[0] == '#' }

  /** An object with the three properties of a reference. */
  ghost predicate RefObject(j: Json) { j.Obj? && {"resultOf", "name", "path"} <= j.fields.Keys }

  /** Some "#" key, at any depth, has a reference for its value. */
  ghost predicate HoldsRef(j: Json)
    decreases j
  {
    match j
    case Obj(m) => exists k :: k in m && ((Marked(k) && RefObject(m[k])) || HoldsRef(m[k]))
    case Arr(items) => exists i :: 0 <= i < |items| && HoldsRef(items[i])
    case _ => false
  }

  lemma TreatedExactly(k: string, item: Json, top: bool)
    ensures Treated(k, item, top) <==> Marked(k) && (top || RefObject(item))
  {
    assert k != "" ==> k[..1] == [k[0]];
  }

  lemma {:induction false} RefFreeBelow(j: Json)
    ensures RefFree(j, false) <==> !HoldsRef(j)
    decreases j
  {
    match j
    case Obj(m) =>
      forall k | k in m
        ensures !Treated(k, m[k], false) && RefFree(m[k], false)
                <==> !((Marked(k) && RefObject(m[k])) || HoldsRef(m[k]))
      {
        TreatedExactly(k, m[k], false);
        RefFreeBelow(m[k]);
      }
    case Arr(items) =>
      forall i | 0 <= i < |items| ensures RefFree(items[i], false) <==> !HoldsRef(items[i]) { RefFreeBelow(items[i]); }
    case _ =>
  }

  /** A tree below the top comes back unchanged exactly when it holds no reference at any depth. */
  lemma NestedUnchangedExactly(j: Json, env: Env)
    ensures !Fails(j, env, false) && Value(j, env, false) == j <==> !HoldsRef(j)
  {
    RefFreeBelow(j);
    UnchangedExactly(j, env, false);
  }

  /** Arguments come back unchanged exactly when they hold no reference and no "#" key of their own. */
  lemma ArgsUnchangedExactly(m: Args, env: Env)
    ensures !Fails(Obj(m), env, true) && Value(Obj(m), env, true) == Obj(m)
            <==> !HoldsRef(Obj(m)) && forall k :: k in m ==> !Marked(k)
  {
    UnchangedExactly(Obj(m), env, true);
    forall k | k in m
      ensures !Treated(k, m[k], true) && RefFree(m[k], false) <==> !Marked(k) && !HoldsRef(m[k])
    {
      TreatedExactly(k, m[k], true);
      RefFreeBelow(m[k]);
    }
  }

  // ----- one reference -----

  /** The reference names the response of a call by id and method name, and the path finds `v` in it. */
  ghost predicate PointsTo(ref: Args, env: Env, v: Json) {
    exists id, name, path ::
      && id != "" && name != "" && path != ""
      && "resultOf" in ref && ref["resultOf"] == Str(id)
      && "name" in ref && ref["name"] == Str(name)
      && "path" in ref && ref["path"] == Str(path)
      && id in env.executed && env.executed[id].name == name && env.eval(env.executed[id].args, path) == Some(v)
  }

  lemma ReferenceExactly(ref: Args, env: Env, v: Json)
    ensures ResolveReference(ref, env) == Some(v) <==> PointsTo(ref, env, v)
  {
    if ResolveReference(ref, env) == Some(v) {
      var id, name, path := StringAt(ref, "resultOf"), StringAt(ref, "name"), StringAt(ref, "path");
      assert ref["resultOf"] == Str(id) && ref["name"] == Str(name) && ref["path"] == Str(path);
    }
  }

  ghost predicate Dangling(ref: Args, env: Env) { forall v :: !PointsTo(ref, env, v) }

  lemma DanglingExactly(ref: Args, env: Env)
    ensures ResolveReference(ref, env).None? <==> Dangling(ref, env)
  {
    if ResolveReference(ref, env).Some? { ReferenceExactly(ref, env, ResolveReference(ref, env).value); }
    forall v ensures ResolveReference(ref, env) == Some(v) <==> PointsTo(ref, env, v) { ReferenceExactly(ref, env, v); }
  }

  /** The value under "#n" is handled as a reference. */
  ghost predicate Refers(m: Args, n: string, top: bool) { "#" + n in m && (top || RefObject(m["#" + n])) }

  const LISTS := {"ids", "emailIds", "mailboxIds", "threadIds", "destroy", "typeNames", "properties"}

  /** Where an argument "#n" refers to a value, the resolved arguments hold it under "n", as a one-element
      list where a list is wanted and it is neither one nor null. Below the top it is never wrapped. */
  lemma SubstitutedExactly(m: Args, env: Env, top: bool, n: string, v: Json)
    requires !Fails(Obj(m), env, top) && "#" + n in m && RefObject(m["#" + n]) && PointsTo(m["#" + n].fields, env, v)
    ensures var r := Value(Obj(m), env, top);
            r.Obj? && n in r.fields && "#" + n !in r.fields
            && r.fields[n] == if top && n in LISTS && !v.Arr? && !v.Null? then Arr([v]) else v
  {
    var k := "#" + n;
    assert k[0] == '#' && k[1..] == n;
    TreatedExactly(k, m[k], top);
    ReferenceExactly(m[k].fields, env, v);
    SubstitutedVerbatim(Obj(m), env, top, k);
    KeysOfResult(Obj(m), env, top);
    KeysPass(Obj(m), env, top);
    if "#" + n in Targets(m, top) { LandsOnItself(m, env, top, k, Source(m, k, top)); }
  }

  /** All else stays where it is: the other keys with their values resolved below the top, the elements
      of a list likewise. */
  lemma OthersInPlace(j: Json, env: Env, top: bool)
    requires !Fails(j, env, top)
    ensures j.Obj? ==> Value(j, env, top).Obj?
    ensures j.Obj? ==> forall k :: k in j.fields && !(Marked(k) && (top || RefObject(j.fields[k]))) ==>
              k in Value(j, env, top).fields && Value(j, env, top).fields[k] == Value(j.fields[k], env, false)
    ensures j.Arr? ==> Value(j, env, top).Arr? && |Value(j, env, top).items| == |j.items|
    ensures j.Arr? ==> forall i :: 0 <= i < |j.items| ==> Value(j, env, top).items[i] == Value(j.items[i], env, false)
    ensures !j.Obj? && !j.Arr? ==> Value(j, env, top) == j
  {
    if j.Obj? {
      KeysPass(j, env, top);
      ValueOfObject(j, env, top);
      forall k | k in j.fields && !(Marked(k) && (top || RefObject(j.fields[k])))
        ensures k in Value(j, env, top).fields && Value(j, env, top).fields[k] == Value(j.fields[k], env, false)
      {
        TreatedExactly(k, j.fields[k], top);
        assert Target(j.fields, k, top) == k;
      }
    }
  }

  /** The keys of the result are those that stay and those that "#" keys refer to, nothing else. */
  lemma KeysExactly(m: Args, env: Env, top: bool, t: string)
    requires !Fails(Obj(m), env, top)
    ensures var r := Value(Obj(m), env, top);
            r.Obj? && |r.fields| == |m|
            && (t in r.fields <==> (t in m && !(Marked(t) && (top || RefObject(m[t])))) || Refers(m, t, top))
  {
    KeysOfResult(Obj(m), env, top);
    var k := "#" + t;
    assert k[0] == '#' && k[1..] == t;
    if t in Targets(m, top) {
      var l := Source(m, t, top);
      TreatedExactly(l, m[l], top);
      if l != t { assert l == "#" + l[1..] == k; }
    }
    if t in m { TreatedExactly(t, m[t], top); }
    if k in m { TreatedExactly(k, m[k], top); }
    if t in m && !Treated(t, m[t], top) { assert Target(m, t, top) == t; }
    if k in m && Treated(k, m[k], top) { assert Target(m, k, top) == t; }
  }

  // ----- failures -----

  /** An argument is given both as it is and by reference, here or deeper. */
  ghost predicate GivenTwice(j: Json, top: bool)
    decreases j
  {
    match j
    case Obj(m) =>
      || (exists n :: n in m && Refers(m, n, top))
      || (exists k :: k in m && !(Marked(k) && (top || RefObject(m[k]))) && GivenTwice(m[k], false))
    case Arr(items) => exists i :: 0 <= i < |items| && GivenTwice(items[i], false)
    case _ => false
  }

  /** What should be a reference is none or leads nowhere, here or deeper, and is not given twice. */
  ghost predicate LeadsNowhere(j: Json, env: Env, top: bool)
    decreases j
  {
    match j
    case Obj(m) =>
      || (exists n :: n !in m && Refers(m, n, top)
                      && (!RefObject(m["#" + n]) || Dangling(m["#" + n].fields, env)))
      || (exists k :: k in m && !(Marked(k) && (top || RefObject(m[k]))) && LeadsNowhere(m[k], env, false))
    case Arr(items) => exists i :: 0 <= i < |items| && LeadsNowhere(items[i], env, false)
    case _ => false
  }

  lemma KeyFailureExactly(m: Args, k: string, env: Env, top: bool)
    requires k in m
    ensures KeyFailure(m, k, env, top) == Some(InvalidArguments) <==>
            Marked(k) && k[1..] in m && Refers(m, k[1..], top)
    ensures KeyFailure(m, k, env, top) == Some(InvalidResultReference) <==>
            Marked(k) && k[1..] !in m && Refers(m, k[1..], top)
            && (!RefObject(m[k]) || Dangling(m[k].fields, env))
  {
    TreatedExactly(k, m[k], top);
    if Marked(k) { assert "#" + k[1..] == k; }
    if RefObject(m[k]) { DanglingExactly(m[k].fields, env); }
  }

  lemma SomeKeyFails(m: Args, env: Env, top: bool)
    ensures (exists k :: k in m && KeyFailure(m, k, env, top) == Some(InvalidArguments)) <==>
            exists n :: n in m && Refers(m, n, top)
    ensures (exists k :: k in m && KeyFailure(m, k, env, top) == Some(InvalidResultReference)) <==>
            exists n :: n !in m && Refers(m, n, top) && (!RefObject(m["#" + n]) || Dangling(m["#" + n].fields, env))
  {
    forall k | k in m
      ensures KeyFailure(m, k, env, top) == Some(InvalidArguments) ==> exists n :: n in m && Refers(m, n, top)
      ensures KeyFailure(m, k, env, top) == Some(InvalidResultReference) ==>
                exists n :: n !in m && Refers(m, n, top)
                            && (!RefObject(m["#" + n]) || Dangling(m["#" + n].fields, env))
    {
      KeyFailureExactly(m, k, env, top);
      if Marked(k) { assert "#" + k[1..] == k; }
    }
    forall n | Refers(m, n, top)
      ensures n in m ==> KeyFailure(m, "#" + n, env, top) == Some(InvalidArguments)
      ensures n !in m && (!RefObject(m["#" + n]) || Dangling(m["#" + n].fields, env)) ==>
                KeyFailure(m, "#" + n, env, top) == Some(InvalidResultReference)
    {
      assert ("#" + n)[1..] == n && ("#" + n)[0] == '#';
      KeyFailureExactly(m, "#" + n, env, top);
    }
  }

  /** An object fails with a kind by one of its keys, or below one that stays. */
  lemma ObjectFailsWith(m: Args, env: Env, top: bool, kind: Kind)
    ensures FailsWith(Obj(m), env, top, kind) <==>
            || (exists k :: k in m && KeyFailure(m, k, env, top) == Some(kind))
            || (exists k :: k in m && !(Marked(k) && (top || RefObject(m[k]))) && FailsWith(m[k], env, false, kind))
  {
    forall k | k in m ensures Treated(k, m[k], top) <==> Marked(k) && (top || RefObject(m[k])) {
      TreatedExactly(k, m[k], top);
    }
  }

  lemma {:induction false} GivenTwiceExactly(j: Json, env: Env, top: bool)
    ensures FailsWith(j, env, top, InvalidArguments) <==> GivenTwice(j, top)
    decreases j
  {
    match j
    case Obj(m) =>
      SomeKeyFails(m, env, top);
      ObjectFailsWith(m, env, top, InvalidArguments);
      forall k | k in m ensures FailsWith(m[k], env, false, InvalidArguments) <==> GivenTwice(m[k], false) {
        GivenTwiceExactly(m[k], env, false);
      }
    case Arr(items) =>
      forall i | 0 <= i < |items|
        ensures FailsWith(items[i], env, false, InvalidArguments) <==> GivenTwice(items[i], false)
      {
        GivenTwiceExactly(items[i], env, false);
      }
    case _ =>
  }

  lemma {:induction false} LeadsNowhereExactly(j: Json, env: Env, top: bool)
    ensures FailsWith(j, env, top, InvalidResultReference) <==> LeadsNowhere(j, env, top)
    decreases j
  {
    match j
    case Obj(m) =>
      SomeKeyFails(m, env, top);
      ObjectFailsWith(m, env, top, InvalidResultReference);
      forall k | k in m
        ensures FailsWith(m[k], env, false, InvalidResultReference) <==> LeadsNowhere(m[k], env, false)
      {
        LeadsNowhereExactly(m[k], env, false);
      }
    case Arr(items) =>
      forall i | 0 <= i < |items|
        ensures FailsWith(items[i], env, false, InvalidResultReference) <==> LeadsNowhere(items[i], env, false)
      {
        LeadsNowhereExactly(items[i], env, false);
      }
    case _ =>
  }

  /** Resolution can fail with invalidArguments exactly when an argument is given twice, and with
      invalidResultReference exactly when a reference is none or leads nowhere; with neither it
      succeeds. */
  lemma FailureExactly(j: Json, env: Env, top: bool)
    ensures FailsWith(j, env, top, InvalidArguments) <==> GivenTwice(j, top)
    ensures FailsWith(j, env, top, InvalidResultReference) <==> LeadsNowhere(j, env, top)
    ensures Fails(j, env, top) <==> GivenTwice(j, top) || LeadsNowhere(j, env, top)
  {
    GivenTwiceExactly(j, env, top);
    LeadsNowhereExactly(j, env, top);
  }
}
