/** When a call of a JMAP request runs its handler and when it is answered with which error, in terms of
    the request alone (sections 3.3 to 5.5 of RFC 8620; jmap/server.go). */
module DispatchTheorems {
  import opened GoStrings
  import opened ResultReferences
  import opened Dispatch

  /** The request does not declare what the method needs. */
  ghost predicate Undeclared(srv: Server, name: string) {
    || (srv.requiredCapability(name) !in srv.using && "urn:ietf:params:jmap:core" !in srv.using)
    || (HasPrefix(name, "MDN/") && "urn:ietf:params:jmap:mdn" !in srv.using)
    || (name == "MDN/send" && "urn:ietf:params:jmap:mail" !in srv.using)
    || srv.using == []
  }

  ghost predicate Given(args: Args, k: string) { k in args && args[k] != Null }

  function Number(n: nat): Json { Num(n as real) }

  /** A whole number from `least` on that a uint64 holds. */
  ghost predicate WholeFrom(j: Json, least: nat) {
    exists n: nat :: least <= n < 0x1_0000_0000_0000_0000 && j == Number(n)
  }

  ghost predicate AccountNamed(args: Args) {
    "accountId" in args && args["accountId"].Str? && args["accountId"].s != ""
  }

  ghost predicate Sound(srv: Server, name: string, args: Args) {
    && (HasSuffix(name, "/changes") && Given(args, "maxChanges") ==> WholeFrom(args["maxChanges"], 1))
    && (HasSuffix(name, "/query") && Given(args, "limit") ==> WholeFrom(args["limit"], 0))
    && (HasSuffix(name, "/query") && Given(args, "filter") ==>
          args["filter"].Obj? && !srv.badFilter(args["filter"].fields))
  }

  ghost predicate Composite(name: string, args: Args) {
    && HasSuffix(name, "/get") && "ids" in args && args["ids"].Arr?
    && exists j :: j in args["ids"].items && (j.Arr? || j.Obj?)
  }

  ghost predicate Own(srv: Server, account: string) {
    account == "primary" || account == srv.principal || srv.accountOf(account) == srv.principal
  }

  /** The plan for a call that passed the checks on the request as a whole. */
  ghost predicate AccountPlan(srv: Server, i: nat, name: string, args: Args, plan: Plan) {
    if !AccountNamed(args) || (Given(args, "ids") && !args["ids"].Arr?) then plan == Reject("invalidArguments")
    else if Composite(name, args) then plan == Panic
    else if !Sound(srv, name, args) then plan == Reject("invalidArguments")
    else if !Own(srv, args["accountId"].s) && srv.access(i, args["accountId"].s).Some?
    then plan == Reject(srv.access(i, args["accountId"].s).value)
    else plan.Run?
  }

  lemma WholeExactly(j: Json)
    ensures Whole(j) <==> WholeFrom(j, 0)
    ensures Whole(j) && j.n > 0.0 <==> WholeFrom(j, 1)
  {
    if Whole(j) {
      var n: nat := j.n.Floor;
      assert j == Number(n);
    }
  }

  lemma SoundExactly(srv: Server, name: string, args: Args)
    ensures Sound(srv, name, args) <==>
            && (HasSuffix(name, "/changes") && Present(args, "maxChanges") ==>
                  Whole(args["maxChanges"]) && args["maxChanges"].n > 0.0)
            && (HasSuffix(name, "/query") && Present(args, "limit") ==> Whole(args["limit"]))
            && (HasSuffix(name, "/query") && Present(args, "filter") ==>
                  args["filter"].Obj? && !srv.badFilter(args["filter"].fields))
  {
    if "maxChanges" in args { WholeExactly(args["maxChanges"]); }
    if "limit" in args { WholeExactly(args["limit"]); }
  }

  lemma AccountPlanExactly(srv: Server, i: nat, name: string, args: Args)
    ensures AccountPlan(srv, i, name, args, AdmitAccount(srv, i, name, args))
  {
    SoundExactly(srv, name, args);
    if HasSuffix(name, "/get") { assert name[|name| - 4..] == "/get"; }
  }

  /** Every call gets the plan of the first check that decides. */
  ghost predicate PlanFor(srv: Server, i: nat, name: string, res: Resolution, plan: Plan)
    requires res.Resolved? ==> res.value.Obj?
  {
    if Undeclared(srv, name) then plan == Reject("unknownMethod")
    else if res.Failed? then
      plan == Reject(match res.kind
                     case InvalidArguments => "invalidArguments"
                     case InvalidResultReference => "invalidResultReference")
    else if !WithinLimits(srv, name, res.value.fields) then plan == Reject("requestTooLarge")
    else if !srv.registered(name) then plan == Reject("unknownMethod")
    else if name == "Core/echo" then plan == Echo(res.value.fields)
    else if HasPrefix(name, "PushSubscription/") then plan == Run(res.value.fields)
    else AccountPlan(srv, i, name, res.value.fields, plan)
  }

  lemma PlanExactly(srv: Server, i: nat, name: string, res: Resolution)
    requires res.Resolved? ==> res.value.Obj?
    ensures PlanFor(srv, i, name, res, Admit(srv, i, name, res))
  {
    if res.Resolved? { AccountPlanExactly(srv, i, name, res.value.fields); }
  }

  /** The handler of a call runs: everything the checks ask for is there. */
  ghost predicate MayRun(srv: Server, i: nat, name: string, given: Args) {
    && !Undeclared(srv, name) && WithinLimits(srv, name, given) && srv.registered(name)
    && (name == "Core/echo" || HasPrefix(name, "PushSubscription/")
        || (&& AccountNamed(given) && (Given(given, "ids") ==> given["ids"].Arr?) && Sound(srv, name, given)
            && (Own(srv, given["accountId"].s) || srv.access(i, given["accountId"].s).None?)))
  }

  /** In every run the handler of a call runs exactly when its arguments resolve and everything the
      checks ask for is there; otherwise it is answered with an error. */
  lemma HandlersRunExactly(srv: Server, calls: seq<Invocation>, turns: seq<Turn>, i: nat)
    requires IsRun(srv, calls, turns) && i < |turns|
    ensures var j, env := Obj(calls[i].args), Env(Latest(turns[..i]), srv.eval);
            turns[i].ran.Some? <==>
            && !Fails(j, env, true) && Value(j, env, true).Obj?
            && MayRun(srv, i, calls[i].name, Value(j, env, true).fields)
  {
    assert TookTurn(srv, calls, turns, i);
    var res :| Resolves(srv, calls[i].args, turns[..i], res) && !Admit(srv, i, calls[i].name, res).Panic?
               && turns[i] == TurnOf(srv, i, calls[i], Admit(srv, i, calls[i].name, res), SpillAfter(turns[..i]));
    PlanExactly(srv, i, calls[i].name, res);
    FailedFails(srv, calls[i].args, turns[..i], res);
  }

  lemma FailedFails(srv: Server, args: Args, turns: seq<Turn>, res: Resolution)
    requires Resolves(srv, args, turns, res)
    ensures res.Failed? <==> Fails(Obj(args), Env(Latest(turns), srv.eval), true)
  {
    AnyKindFails(Obj(args), Env(Latest(turns), srv.eval), true);
  }

  // ----- repeated ids -----

  /** `pos` are the places in `items` where `r` comes from: increasing, and each the first occurrence. */
  ghost predicate FirstsAt(items: seq<Json>, r: seq<Json>, pos: seq<nat>) {
    && |pos| == |r|
    && (forall i :: 0 <= i < |pos| ==>
          pos[i] < |items| && r[i] == items[pos[i]] && items[pos[i]] !in items[..pos[i]])
    && (forall i, j :: 0 <= i < j < |pos| ==> pos[i] < pos[j])
  }

  /** The ids a /get handler sees are those of the call, each once and in order of first occurrence. */
  lemma DedupKeepsFirsts(items: seq<Json>)
    ensures NoDup(Dedup(items)) && exists pos: seq<nat> :: FirstsAt(items, Dedup(items), pos)
  {
    var pos := FirstPositions(items);
    FirstsDiffer(items, Dedup(items), pos);
  }

  lemma {:induction false} FirstPositions(items: seq<Json>) returns (pos: seq<nat>)
    ensures FirstsAt(items, Dedup(items), pos)
  {
    if items == [] {
      pos := [];
    } else {
      var n := |items| - 1;
      var init, last := items[..n], items[n];
      var earlier := FirstPositions(init);
      FirstsExtend(items, init, last, Dedup(init), earlier);
      pos := if last in init then earlier else earlier + [n];
    }
  }

  /** First occurrences are all different. */
  lemma FirstsDiffer(items: seq<Json>, r: seq<Json>, pos: seq<nat>)
    requires FirstsAt(items, r, pos)
    ensures NoDup(r)
  {
    forall i, j | 0 <= i < j < |r| ensures r[i] != r[j] {
      assert items[..pos[j]][pos[i]] == items[pos[i]];
    }
  }

  lemma FirstsExtend(items: seq<Json>, init: seq<Json>, last: Json, r: seq<Json>, pos: seq<nat>)
    requires items == init + [last] && FirstsAt(init, r, pos)
    ensures FirstsAt(items, r, pos)
    ensures last !in init ==> FirstsAt(items, r + [last], pos + [|init|])
  {
    forall k | 0 <= k <= |init| ensures items[..k] == init[..k] {}
    assert items[..|init|] == init;
  }

  /** Apart from that, and from the account, a handler runs with the arguments as they were resolved. */
  lemma OtherArgumentsKept(srv: Server, i: nat, name: string, args: Args)
    requires AdmitAccount(srv, i, name, args).Run?
    ensures var ran := AdmitAccount(srv, i, name, args).args;
            && ran.Keys == args.Keys && "accountId" in args && args["accountId"].Str?
            && ran["accountId"]
               == (if Own(srv, args["accountId"].s) then Str(srv.principal) else args["accountId"])
            && forall k ::
                 k in args && k != "accountId" && !(k == "ids" && HasSuffix(name, "/get")) ==> ran[k] == args[k]
  {
  }

  /** And that is what the handler of a /get call on an account runs with. */
  lemma GetIdsOnce(srv: Server, i: nat, name: string, args: Args)
    requires AdmitAccount(srv, i, name, args).Run? && HasSuffix(name, "/get") && "ids" in args && args["ids"].Arr?
    ensures var ran := AdmitAccount(srv, i, name, args).args;
            && "ids" in ran && ran["ids"].Arr? && NoDup(ran["ids"].items)
            && exists pos: seq<nat> :: FirstsAt(args["ids"].items, ran["ids"].items, pos)
  {
    DedupKeepsFirsts(args["ids"].items);
  }
}
