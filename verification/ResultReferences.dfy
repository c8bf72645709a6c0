/** Result-reference resolution over JSON trees (jmap/server.go; section 3.7 of RFC 8620). */
module ResultReferences {
  import opened GoStrings

  datatype Json =
    | Null
    | Bool(b: bool)
    | Num(n: real)
    | Str(s: string)
    | Arr(items: seq<Json>)
    | Obj(fields: map<string, Json>)

  type Args = map<string, Json>

  datatype Invocation = Invocation(name: string, args: Args, callId: string)

  /** What a reference is evaluated against: the responses so far by call id, and the JSON pointer
      evaluator. */
  datatype Env = Env(executed: map<string, Invocation>, eval: (Args, string) -> Option<Json>)

  datatype Kind = InvalidArguments | InvalidResultReference

  datatype Resolution = Resolved(value: Json) | Failed(kind: Kind)

  // ----- references -----

  predicate IsResultReference(m: Args) { "resultOf" in m && "name" in m && "path" in m }

  predicate IsRef(j: Json) { j.Obj? && IsResultReference(j.fields) }

  function StringAt(m: Args, k: string): string { if k in m && m[k].Str? then m[k].s else "" }

  function ResolveReference(m: Args, env: Env): (r: Option<Json>)
  {
    var resultOf, name, path := StringAt(m, "resultOf"), StringAt(m, "name"), StringAt(m, "path");
    if resultOf == "" || name == "" || path == "" || resultOf !in env.executed then None
    else
      var inv := env.executed[resultOf];
      if inv.name != name then None else env.eval(inv.args, path)
  }

  predicate ListArgument(name: string) {
    name in ["ids", "emailIds", "mailboxIds", "threadIds", "destroy", "typeNames", "properties"]
  }

  /** At top level a single value for a list argument becomes a one-element list. */
  function AsArgument(name: string, v: Json, top: bool): Json {
    if top && !v.Arr? && !v.Null? && ListArgument(name) then Arr([v]) else v
  }

  // ----- one key of an object -----

  /** The key is handled as a reference: at top level every "#" key, below it only one whose value
      is a reference object. */
  predicate Treated(k: string, item: Json, top: bool) { HasPrefix(k, "#") && (top || IsRef(item)) }

  function Target(m: Args, k: string, top: bool): string
    requires k in m
  {
    if Treated(k, m[k], top) then k[1..] else k
  }

  /** Why the key itself fails, leaving the values below it aside. */
  function KeyFailure(m: Args, k: string, env: Env, top: bool): Option<Kind>
    requires k in m
  {
    if !Treated(k, m[k], top) then None
    else if k[1..] in m then Some(InvalidArguments)
    else if !IsRef(m[k]) || ResolveReference(m[k].fields, env).None? then Some(InvalidResultReference)
    else None
  }

  // ----- the specification -----

  /** Some position of `j` fails with `kind`. */
  ghost predicate FailsWith(j: Json, env: Env, top: bool, kind: Kind)
    decreases j
  {
    match j
    case Obj(m) =>
      exists k :: (k in m &&
        (KeyFailure(m, k, env, top) == Some(kind) || (!Treated(k, m[k], top) && FailsWith(m[k], env, false, kind))))
    case Arr(items) => exists i :: 0 <= i < |items| && FailsWith(items[i], env, false, kind)
    case _ => false
  }

  ghost predicate Fails(j: Json, env: Env, top: bool) {
    FailsWith(j, env, top, InvalidArguments) || FailsWith(j, env, top, InvalidResultReference)
  }

  ghost predicate KeysGood(m: Args, env: Env, top: bool) { forall k :: k in m ==> KeyFailure(m, k, env, top).None? }

  /** The value under a key that does not fail: a reference's value as it stands, and any other
      value resolved in turn. */
  ghost function KeyValue(j: Json, k: string, env: Env, top: bool): Json
    requires j.Obj? && k in j.fields && KeyFailure(j.fields, k, env, top).None?
    decreases j, 0
  {
    var item := j.fields[k];
    if Treated(k, item, top) then AsArgument(k[1..], ResolveReference(item.fields, env).value, top)
    else Value(item, env, false)
  }

  /** The resolved tree; meaningful when nothing fails. */
  ghost function Value(j: Json, env: Env, top: bool): Json
    decreases j, 1
  {
    match j
    case Obj(m) =>
      if !KeysGood(m, env, top) then j
      else Obj(map t | t in Targets(m, top) :: KeyValue(j, Source(m, t, top), env, top))
    case Arr(items) => Arr(seq(|items|, i requires 0 <= i < |items| => Value(items[i], env, false)))
    case _ => j
  }

  ghost function Targets(m: Args, top: bool): set<string> { set k | k in m :: Target(m, k, top) }

  /** A key of `m` that lands on `t`. */
  ghost function Source(m: Args, t: string, top: bool): (k: string)
    requires t in Targets(m, top)
    ensures k in m && Target(m, k, top) == t
  {
    var k :| k in m && Target(m, k, top) == t;
    k
  }

  /** Keys that do not fail never land on one another. */
  lemma TargetsApart(m: Args, env: Env, top: bool, k: string, l: string)
    requires k in m && l in m && KeyFailure(m, k, env, top).None? && KeyFailure(m, l, env, top).None?
    requires Target(m, k, top) == Target(m, l, top)
    ensures k == l
  {
    if Treated(k, m[k], top) { assert k == "#" + k[1..]; }
    if Treated(l, m[l], top) { assert l == "#" + l[1..]; }
  }

  // ----- the code -----

  /** Ranging over a Go map visits its keys in any order. */
  method ResolveValue(j: Json, env: Env, top: bool) returns (r: Resolution)
    ensures r.Resolved? <==> !Fails(j, env, top)
    ensures r.Resolved? ==> r.value == Value(j, env, top)
    ensures r.Failed? ==> FailsWith(j, env, top, r.kind)
    decreases j, 2
  {
    match j {
      case Obj(_) => r := ResolveObject(j, env, top);
      case Arr(items) =>
        var resolved: seq<Json> := [];
        for i := 0 to |items|
          invariant |resolved| == i && forall k :: 0 <= k < i ==> resolved[k] == Value(items[k], env, false)
          invariant forall k :: 0 <= k < i ==> !Fails(items[k], env, false)
        {
          var child := ResolveValue(items[i], env, false);
          if child.Failed? {
            return child;
          }
          resolved := resolved + [child.value];
        }
        assert Arr(resolved) == Value(j, env, top);
        r := Resolved(Arr(resolved));
      case _ => r := Resolved(j);
    }
  }

  method ResolveObject(j: Json, env: Env, top: bool) returns (r: Resolution)
    requires j.Obj?
    ensures r.Resolved? <==> !Fails(j, env, top)
    ensures r.Resolved? ==> r.value == Value(j, env, top)
    ensures r.Failed? ==> FailsWith(j, env, top, r.kind)
    decreases j, 1
  {
    var v := j.fields;
    var resolved: Args := map[];
    var rest := v.Keys;
    while rest != {}
      invariant rest <= v.Keys
      invariant forall k :: k in v.Keys - rest ==> Filled(j, k, env, top, resolved)
      invariant resolved.Keys == TargetsOf(v, v.Keys - rest, top)
    {
      var k :| k in rest;
      var item := ResolveKey(j, k, env, top);
      if item.Failed? {
        return item;
      }
      resolved := AddKey(j, k, env, top, v.Keys - rest, resolved, item.value);
      ghost var done := v.Keys - rest;
      rest := rest - {k};
      assert v.Keys - rest == done + {k};
    }
    ObjectDone(j, env, top, resolved);
    r := Resolved(Obj(resolved));
  }

  method ResolveKey(j: Json, k: string, env: Env, top: bool) returns (r: Resolution)
    requires j.Obj? && k in j.fields
    ensures r.Resolved? <==> Passed(j, k, env, top)
    ensures r.Resolved? ==> r.value == KeyValue(j, k, env, top)
    ensures r.Failed? ==> FailsWith(j, env, top, r.kind)
    decreases j, 0
  {
    var v, item := j.fields, j.fields[k];
    if HasPrefix(k, "#") && (top || IsRef(item)) {
      var name := k[1..];
      if name in v {
        return Failed(InvalidArguments);
      }
      if !IsRef(item) {
        return Failed(InvalidResultReference);
      }
      var found := ResolveReference(item.fields, env);
      if found.None? {
        return Failed(InvalidResultReference);
      }
      return Resolved(AsArgument(name, found.value, top));
    }
    r := ResolveValue(item, env, false);
  }

  /** Neither the key nor anything below it fails. */
  ghost predicate Passed(j: Json, k: string, env: Env, top: bool)
    requires j.Obj? && k in j.fields
  {
    KeyFailure(j.fields, k, env, top).None? && (Treated(k, j.fields[k], top) || !Fails(j.fields[k], env, false))
  }

  /** The key passed and its value stands in `resolved`. */
  ghost predicate Filled(j: Json, k: string, env: Env, top: bool, resolved: Args)
    requires j.Obj? && k in j.fields
  {
    var t := Target(j.fields, k, top);
    Passed(j, k, env, top) && t in resolved && resolved[t] == KeyValue(j, k, env, top)
  }

  ghost function TargetsOf(m: Args, ks: set<string>, top: bool): set<string>
    requires ks <= m.Keys
  {
    set k | k in ks :: Target(m, k, top)
  }

  method AddKey(j: Json, k: string, ghost env: Env, top: bool, ghost done: set<string>, resolved: Args, value: Json)
    returns (r: Args)
    requires j.Obj? && k in j.fields && done <= j.fields.Keys && k !in done
    requires Passed(j, k, env, top) && value == KeyValue(j, k, env, top)
    requires forall l :: l in done ==> Filled(j, l, env, top, resolved)
    requires resolved.Keys == TargetsOf(j.fields, done, top)
    ensures forall l :: l in done + {k} ==> Filled(j, l, env, top, r)
    ensures r.Keys == TargetsOf(j.fields, done + {k}, top)
  {
    var name := Target(j.fields, k, top);
    r := resolved[name := value];
    forall l | l in done ensures Filled(j, l, env, top, r) {
      if Target(j.fields, l, top) == name { TargetsApart(j.fields, env, top, k, l); }
    }
    assert TargetsOf(j.fields, done + {k}, top) == TargetsOf(j.fields, done, top) + {name};
  }

  lemma ValueOfObject(j: Json, env: Env, top: bool)
    requires j.Obj? && KeysGood(j.fields, env, top)
    ensures Value(j, env, top).Obj? && Value(j, env, top).fields.Keys == Targets(j.fields, top)
    ensures forall k :: k in j.fields ==>
              Target(j.fields, k, top) in Value(j, env, top).fields
              && Value(j, env, top).fields[Target(j.fields, k, top)] == KeyValue(j, k, env, top)
  {
    var m := j.fields;
    forall k | k in m ensures Source(m, Target(m, k, top), top) == k {
      TargetsApart(m, env, top, k, Source(m, Target(m, k, top), top));
    }
  }

  lemma SameMap(a: Args, b: Args, keys: set<string>)
    requires a.Keys == keys && b.Keys == keys && forall t :: t in keys ==> a[t] == b[t]
    ensures a == b
  {
  }

  /** Once every key has passed, the map built is the specified one. */
  lemma ObjectDone(j: Json, env: Env, top: bool, resolved: Args)
    requires j.Obj?
    requires forall k :: k in j.fields ==> Filled(j, k, env, top, resolved)
    requires resolved.Keys == TargetsOf(j.fields, j.fields.Keys, top)
    ensures !Fails(j, env, top) && Value(j, env, top) == Obj(resolved)
  {
    AllPassed(j, env, top);
    ValueOfObject(j, env, top);
    var m, built := j.fields, Value(j, env, top).fields;
    assert Targets(m, top) == TargetsOf(m, m.Keys, top);
    forall t | t in Targets(m, top) ensures built[t] == resolved[t] {
      assert Filled(j, Source(m, t, top), env, top, resolved);
    }
    SameMap(built, resolved, Targets(m, top));
  }

  lemma AllPassed(j: Json, env: Env, top: bool)
    requires j.Obj? && forall k :: k in j.fields ==> Passed(j, k, env, top)
    ensures KeysGood(j.fields, env, top) && !Fails(j, env, top)
  {
  }

  /** resolveResultReferences: absent arguments are empty ones. */
  method ResolveArgs(args: Option<Args>, env: Env) returns (r: Resolution)
    ensures args.None? ==> r == Resolved(Obj(map[]))
    ensures args.Some? ==> (r.Resolved? <==> !Fails(Obj(args.value), env, true))
    ensures args.Some? && r.Resolved? ==> r.value == Value(Obj(args.value), env, true)
    ensures args.Some? && r.Failed? ==> FailsWith(Obj(args.value), env, true, r.kind)
    ensures r.Resolved? ==> r.value.Obj?
  {
    if args.None? {
      return Resolved(Obj(map[]));
    }
    r := ResolveValue(Obj(args.value), env, true);
    if r.Resolved? {
      KeysPass(Obj(args.value), env, true);
      ValueOfObject(Obj(args.value), env, true);
    }
  }

  // ----- what resolution guarantees -----

  lemma KeysPass(j: Json, env: Env, top: bool)
    requires j.Obj? && !Fails(j, env, top)
    ensures KeysGood(j.fields, env, top)
    ensures forall k :: k in j.fields && !Treated(k, j.fields[k], top) ==> !Fails(j.fields[k], env, false)
  {
    forall k | k in j.fields ensures KeyFailure(j.fields, k, env, top).None? {}
  }

  lemma {:induction false} ImageSize(m: Args, env: Env, top: bool, ks: set<string>)
    requires ks <= m.Keys && KeysGood(m, env, top)
    ensures |TargetsOf(m, ks, top)| == |ks|
  {
    if ks != {} {
      var k :| k in ks;
      ImageSize(m, env, top, ks - {k});
      var rest := TargetsOf(m, ks - {k}, top);
      assert Target(m, k, top) !in rest by {
        forall l | l in ks - {k} ensures Target(m, l, top) != Target(m, k, top) {
          if Target(m, l, top) == Target(m, k, top) { TargetsApart(m, env, top, k, l); }
        }
      }
      assert TargetsOf(m, ks, top) == rest + {Target(m, k, top)};
    }
  }

  /** The keys are the input's with one "#" stripped from each reference key, and none collide. */
  lemma KeysOfResult(j: Json, env: Env, top: bool)
    requires j.Obj? && !Fails(j, env, top)
    ensures Value(j, env, top).Obj? && Value(j, env, top).fields.Keys == Targets(j.fields, top)
    ensures |Value(j, env, top).fields| == |j.fields|
  {
    KeysPass(j, env, top);
    ValueOfObject(j, env, top);
    ImageSize(j.fields, env, top, j.fields.Keys);
    assert Targets(j.fields, top) == TargetsOf(j.fields, j.fields.Keys, top);
  }

  /** A substituted value appears as the earlier response holds it: it is not searched for
      references again. */
  lemma SubstitutedVerbatim(j: Json, env: Env, top: bool, k: string)
    requires j.Obj? && !Fails(j, env, top) && k in j.fields && Treated(k, j.fields[k], top)
    ensures IsRef(j.fields[k]) && ResolveReference(j.fields[k].fields, env).Some?
    ensures Value(j, env, top).Obj? && k[1..] in Value(j, env, top).fields
    ensures Value(j, env, top).fields[k[1..]]
            == AsArgument(k[1..], ResolveReference(j.fields[k].fields, env).value, top)
  {
    KeysPass(j, env, top);
    ValueOfObject(j, env, top);
  }

  ghost predicate RefFree(j: Json, top: bool)
    decreases j
  {
    match j
    case Obj(m) => forall k :: k in m ==> !Treated(k, m[k], top) && RefFree(m[k], false)
    case Arr(items) => forall i :: 0 <= i < |items| ==> RefFree(items[i], false)
    case _ => true
  }

  lemma {:induction false} RefFreeUnchanged(j: Json, env: Env, top: bool)
    requires RefFree(j, top)
    ensures !Fails(j, env, top) && Value(j, env, top) == j
    decreases j
  {
    match j
    case Obj(m) =>
      forall k | k in m ensures Passed(j, k, env, top) && Value(m[k], env, false) == m[k] {
        RefFreeUnchanged(m[k], env, false);
      }
      AllPassed(j, env, top);
      ValueOfObject(j, env, top);
      forall k | k in m ensures k in Value(j, env, top).fields && Value(j, env, top).fields[k] == m[k] {
        assert Target(m, k, top) == k && KeyValue(j, k, env, top) == m[k];
      }
      assert Targets(m, top) == m.Keys;
      SameMap(Value(j, env, top).fields, m, m.Keys);
    case Arr(items) =>
      forall i | 0 <= i < |items| ensures !Fails(items[i], env, false) && Value(items[i], env, false) == items[i] {
        RefFreeUnchanged(items[i], env, false);
      }
      assert Value(j, env, top).items == items;
    case _ =>
  }

  /** Nothing but the key itself may land on a key of the object. */
  lemma LandsOnItself(m: Args, env: Env, top: bool, k: string, l: string)
    requires k in m && l in m && KeyFailure(m, l, env, top).None? && Target(m, l, top) == k
    ensures l == k && !Treated(k, m[k], top)
  {
  }

  /** A reference key does not survive resolution. */
  lemma UnchangedKey(j: Json, env: Env, top: bool, k: string)
    requires j.Obj? && KeysGood(j.fields, env, top) && Value(j, env, top) == j && k in j.fields
    ensures !Treated(k, j.fields[k], top) && Value(j.fields[k], env, false) == j.fields[k]
  {
    ValueOfObject(j, env, top);
    assert k in Targets(j.fields, top);
    LandsOnItself(j.fields, env, top, k, Source(j.fields, k, top));
    assert Target(j.fields, k, top) == k;
  }

  lemma {:induction false} UnchangedIsRefFree(j: Json, env: Env, top: bool)
    requires !Fails(j, env, top) && Value(j, env, top) == j
    ensures RefFree(j, top)
    decreases j
  {
    match j
    case Obj(m) =>
      KeysPass(j, env, top);
      forall k | k in m ensures !Treated(k, m[k], top) && RefFree(m[k], false) {
        UnchangedKey(j, env, top, k);
        UnchangedIsRefFree(m[k], env, false);
      }
    case Arr(items) =>
      forall i | 0 <= i < |items| ensures RefFree(items[i], false) {
        assert Value(j, env, top).items[i] == Value(items[i], env, false);
        UnchangedIsRefFree(items[i], env, false);
      }
    case _ =>
  }

  /** Arguments come back unchanged exactly when they hold no reference; nested "#" keys whose
      values are not references are part of that. */
  lemma UnchangedExactly(j: Json, env: Env, top: bool)
    ensures !Fails(j, env, top) && Value(j, env, top) == j <==> RefFree(j, top)
  {
    if RefFree(j, top) { RefFreeUnchanged(j, env, top); }
    if !Fails(j, env, top) && Value(j, env, top) == j { UnchangedIsRefFree(j, env, top); }
  }

  /** The call ids that the references in `j` name. */
  ghost function RefIds(j: Json, top: bool): set<string>
    decreases j, 1
  {
    match j
    case Obj(m) => set k, id | k in m && id in KeyRefIds(j, k, top) :: id
    case Arr(items) => set i, id | 0 <= i < |items| && id in RefIds(items[i], false) :: id
    case _ => {}
  }

  ghost function KeyRefIds(j: Json, k: string, top: bool): set<string>
    requires j.Obj? && k in j.fields
    decreases j, 0
  {
    var item := j.fields[k];
    if !Treated(k, item, top) then RefIds(item, false)
    else if IsRef(item) then {StringAt(item.fields, "resultOf")}
    else {}
  }

  ghost predicate AgreeOn(a: map<string, Invocation>, b: map<string, Invocation>, ids: set<string>) {
    forall id :: id in ids ==> (id in a <==> id in b) && (id in a ==> a[id] == b[id])
  }

  /** Resolution reads nothing but the responses that the references name. */
  lemma {:induction false} ReadsOnlyNamed(j: Json, env: Env, other: Env, top: bool)
    requires env.eval == other.eval && AgreeOn(env.executed, other.executed, RefIds(j, top))
    ensures Fails(j, env, top) <==> Fails(j, other, top)
    ensures !Fails(j, env, top) ==> Value(j, env, top) == Value(j, other, top)
    decreases j
  {
    match j
    case Obj(m) =>
      forall k | k in m
        ensures KeyFailure(m, k, env, top) == KeyFailure(m, k, other, top)
        ensures Passed(j, k, env, top) <==> Passed(j, k, other, top)
        ensures Passed(j, k, env, top) ==> KeyValue(j, k, env, top) == KeyValue(j, k, other, top)
      {
        if Treated(k, m[k], top) {
          if IsRef(m[k]) { assert StringAt(m[k].fields, "resultOf") in KeyRefIds(j, k, top); }
        } else {
          assert forall id :: id in RefIds(m[k], false) ==> id in KeyRefIds(j, k, top);
          ReadsOnlyNamed(m[k], env, other, false);
        }
      }
      SameObject(j, env, other, top);
    case Arr(items) =>
      forall i | 0 <= i < |items|
        ensures Fails(items[i], env, false) <==> Fails(items[i], other, false)
        ensures !Fails(items[i], env, false) ==> Value(items[i], env, false) == Value(items[i], other, false)
      {
        assert RefIds(items[i], false) <= RefIds(j, top);
        ReadsOnlyNamed(items[i], env, other, false);
      }
      ArrayFails(items, env, top);
      ArrayFails(items, other, top);
      if !Fails(j, env, top) { assert Value(j, env, top).items == Value(j, other, top).items; }
    case _ =>
  }

  lemma ArrayFails(items: seq<Json>, env: Env, top: bool)
    ensures Fails(Arr(items), env, top) <==> exists i :: 0 <= i < |items| && Fails(items[i], env, false)
  {
  }

  lemma ObjectFails(j: Json, env: Env, top: bool)
    requires j.Obj?
    ensures !Fails(j, env, top) <==> forall k :: k in j.fields ==> Passed(j, k, env, top)
  {
    if !Fails(j, env, top) { KeysPass(j, env, top); }
    if forall k :: k in j.fields ==> Passed(j, k, env, top) { AllPassed(j, env, top); }
  }

  lemma SameObject(j: Json, env: Env, other: Env, top: bool)
    requires j.Obj?
    requires forall k :: k in j.fields ==>
               && (Passed(j, k, env, top) <==> Passed(j, k, other, top))
               && (Passed(j, k, env, top) ==> KeyValue(j, k, env, top) == KeyValue(j, k, other, top))
    ensures Fails(j, env, top) <==> Fails(j, other, top)
    ensures !Fails(j, env, top) ==> Value(j, env, top) == Value(j, other, top)
  {
    ObjectFails(j, env, top);
    ObjectFails(j, other, top);
    if !Fails(j, env, top) {
      KeysPass(j, env, top);
      KeysPass(j, other, top);
      ValueOfObject(j, env, top);
      ValueOfObject(j, other, top);
      var m := j.fields;
      forall t | t in Targets(m, top) ensures Value(j, env, top).fields[t] == Value(j, other, top).fields[t] {
        var k := Source(m, t, top);
        assert Passed(j, k, env, top);
      }
      SameMap(Value(j, env, top).fields, Value(j, other, top).fields, Targets(m, top));
    }
  }
}
