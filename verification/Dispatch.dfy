/** The method-call loop of a JMAP request (jmap/server.go; sections 3.3 to 3.7 of RFC 8620). */
module Dispatch {
  import opened GoStrings
  import opened ResultReferences

  const CORE := "urn:ietf:params:jmap:core"
  const MAIL := "urn:ietf:params:jmap:mail"
  const MDN := "urn:ietf:params:jmap:mdn"

  /** What a handler returned and what it left in the response spill. */
  datatype Handled = Handled(name: string, args: Args, spilled: seq<Invocation>)

  /** The surroundings of one request. `handler` and `access` take the position of the call, so
      they may depend on anything that happened before; `shape` is normalizeSetResult, `badFilter`
      is ValidateFilter, `access` is `None` when the account may be used and the error otherwise. */
  datatype Server = Server(
    using: seq<string>, requiredCapability: string -> string, maxObjectsInGet: nat, maxObjectsInSet: nat,
    registered: string -> bool, principal: string, accountOf: string -> string,
    access: (nat, string) -> Option<string>, badFilter: Args -> bool,
    eval: (Args, string) -> Option<Json>, shape: (string, Args) -> Args, handler: (nat, string, Args) -> Handled)

  /** What the checks before the handler decide: an error response, a plain echo, a handler run with
      the final arguments, or a run-time panic. */
  datatype Plan = Reject(error: string) | Echo(args: Args) | Run(args: Args) | Panic

  predicate Unhashable(j: Json) { j.Arr? || j.Obj? }

  /** The ids without repetitions, each kept where it first occurs. */
  function Dedup(items: seq<Json>): (r: seq<Json>)
    ensures |r| <= |items|
    ensures forall j :: j in r <==> j in items
  {
    if items == [] then []
    else
      var init, last := items[..|items| - 1], items[|items| - 1];
      assert items == init + [last];
      if last in init then Dedup(init) else Dedup(init) + [last]
  }

  function ListSize(args: Args, k: string): nat { if k in args && args[k].Arr? then |args[k].items| else 0 }

  function ObjectSize(args: Args, k: string): nat { if k in args && args[k].Obj? then |args[k].fields| else 0 }

  function SetCount(args: Args): nat {
    ObjectSize(args, "create") + ObjectSize(args, "update") + ListSize(args, "destroy")
  }

  predicate Present(args: Args, k: string) { k in args && !args[k].Null? }

  /** A JSON number that is a whole number in the range of uint64. */
  predicate Whole(j: Json) { j.Num? && 0.0 <= j.n < 18446744073709551616.0 && j.n.Floor as real == j.n }

  function KindError(k: Kind): string {
    match k case InvalidArguments => "invalidArguments" case InvalidResultReference => "invalidResultReference"
  }

  /** The checks on a call whose arguments were resolved to `res`. */
  function Admit(srv: Server, i: nat, name: string, res: Resolution): Plan
    requires res.Resolved? ==> res.value.Obj?
  {
    var cap := srv.requiredCapability(name);
    if cap !in srv.using && CORE !in srv.using then Reject("unknownMethod")
    else if HasPrefix(name, "MDN/") && MDN !in srv.using then Reject("unknownMethod")
    else if name == "MDN/send" && MAIL !in srv.using then Reject("unknownMethod")
    else if srv.using == [] then Reject("unknownMethod")
    else if res.Failed? then Reject(KindError(res.kind))
    else
      var args := res.value.fields;
      if HasSuffix(name, "/get") && srv.maxObjectsInGet > 0 && ListSize(args, "ids") > srv.maxObjectsInGet then
        Reject("requestTooLarge")
      else if HasSuffix(name, "/set") && srv.maxObjectsInSet > 0 && SetCount(args) > srv.maxObjectsInSet then
        Reject("requestTooLarge")
      else if !srv.registered(name) then Reject("unknownMethod")
      else if name == "Core/echo" then Echo(args)
      else if HasPrefix(name, "PushSubscription/") then Run(args)
      else AdmitAccount(srv, i, name, args)
  }

  function AdmitAccount(srv: Server, i: nat, name: string, args: Args): Plan {
    if !Present(args, "accountId") then Reject("invalidArguments")
    else if !args["accountId"].Str? || args["accountId"].s == "" then Reject("invalidArguments")
    else if Present(args, "ids") && !args["ids"].Arr? then Reject("invalidArguments")
    else if Present(args, "ids") && HasSuffix(name, "/get") && exists j :: j in args["ids"].items && Unhashable(j) then
      Panic
    else
      var args' := if Present(args, "ids") && HasSuffix(name, "/get")
                   then args["ids" := Arr(Dedup(args["ids"].items))] else args;
      if HasSuffix(name, "/changes") && Present(args', "maxChanges")
         && (!Whole(args'["maxChanges"]) || args'["maxChanges"].n <= 0.0) then Reject("invalidArguments")
      else if HasSuffix(name, "/query") && Present(args', "limit") && !Whole(args'["limit"]) then
        Reject("invalidArguments")
      else if HasSuffix(name, "/query") && Present(args', "filter")
              && (!args'["filter"].Obj? || srv.badFilter(args'["filter"].fields)) then Reject("invalidArguments")
      else
        var account := args["accountId"].s;
        if account == "primary" || account == srv.principal || srv.accountOf(account) == srv.principal then
          Run(args'["accountId" := Str(srv.principal)])
        else match srv.access(i, account)
          case Some(error) => Reject(error)
          case None => Run(args')
  }

  // ----- the loop -----

  /** What one call added: its response, the spilled responses after it, the arguments its handler
      ran with, and the spill left for later calls. */
  datatype Turn = Turn(resp: Invocation, extras: seq<Invocation>, ran: Option<Args>, spill: seq<Invocation>)

  function ErrorResponse(error: string, callId: string): Invocation {
    Invocation("error", map["type" := Str(error)], callId)
  }

  function ShapeAll(srv: Server, invs: seq<Invocation>): seq<Invocation> {
    if invs == [] then []
    else
      var inv := invs[|invs| - 1];
      ShapeAll(srv, invs[..|invs| - 1]) + [inv.(args := srv.shape(inv.name, inv.args))]
  }

  function TurnOf(srv: Server, i: nat, call: Invocation, plan: Plan, spill: seq<Invocation>): Turn
    requires !plan.Panic?
  {
    match plan
    case Reject(error) => Turn(ErrorResponse(error, call.callId), [], None, spill)
    case Echo(args) =>
      var h := srv.handler(i, call.name, args);
      Turn(Invocation(h.name, h.args, call.callId), [], Some(args), spill + h.spilled)
    case Run(args) =>
      var h := srv.handler(i, call.name, args);
      Turn(Invocation(h.name, srv.shape(h.name, h.args), call.callId), ShapeAll(srv, spill + h.spilled), Some(args), [])
  }

  ghost function Flat(turns: seq<Turn>): seq<Invocation> {
    if turns == [] then []
    else
      var t := turns[|turns| - 1];
      Flat(turns[..|turns| - 1]) + [t.resp] + t.extras
  }

  /** The latest response of each call id. */
  ghost function Latest(turns: seq<Turn>): map<string, Invocation> {
    if turns == [] then map[]
    else
      var r := turns[|turns| - 1].resp;
      Latest(turns[..|turns| - 1])[r.callId := r]
  }

  ghost function SpillAfter(turns: seq<Turn>): seq<Invocation> { if turns == [] then [] else turns[|turns| - 1].spill }

  /** `res` is a possible resolution of the arguments against the responses in `turns`. */
  ghost predicate Resolves(srv: Server, args: Args, turns: seq<Turn>, res: Resolution) {
    var env := Env(Latest(turns), srv.eval);
    && (res.Resolved? ==> res.value.Obj? && !Fails(Obj(args), env, true) && res.value == Value(Obj(args), env, true))
    && (res.Failed? ==> FailsWith(Obj(args), env, true, res.kind))
  }

  /** Call `i` took the turn that its checks and handler prescribe, seeing only earlier turns. */
  ghost predicate TookTurn(srv: Server, calls: seq<Invocation>, turns: seq<Turn>, i: nat)
    requires i < |turns| <= |calls|
  {
    exists res ::
      && Resolves(srv, calls[i].args, turns[..i], res)
      && !Admit(srv, i, calls[i].name, res).Panic?
      && turns[i] == TurnOf(srv, i, calls[i], Admit(srv, i, calls[i].name, res), SpillAfter(turns[..i]))
  }

  ghost predicate IsRun(srv: Server, calls: seq<Invocation>, turns: seq<Turn>) {
    |turns| <= |calls| && forall i :: 0 <= i < |turns| ==> TookTurn(srv, calls, turns, i)
  }

  /** The next call panics. */
  ghost predicate PanicsNext(srv: Server, calls: seq<Invocation>, turns: seq<Turn>) {
    |turns| < |calls|
    && exists res :: Resolves(srv, calls[|turns|].args, turns, res)
                    && Admit(srv, |turns|, calls[|turns|].name, res).Panic?
  }

  /** The response list is that of a run over all calls; without one, a run got as far as a call
      that panics. */
  ghost predicate Answers(srv: Server, calls: seq<Invocation>, responses: Option<seq<Invocation>>) {
    exists turns ::
      && IsRun(srv, calls, turns)
      && match responses
         case Some(list) => |turns| == |calls| && list == Flat(turns)
         case None => PanicsNext(srv, calls, turns)
  }

  /** Answers the calls in order; `None` when one of them panics. */
  method HandleCalls(srv: Server, calls: seq<Invocation>) returns (responses: Option<seq<Invocation>>)
    ensures Answers(srv, calls, responses)
  {
    ghost var turns: seq<Turn> := [];
    var out: seq<Invocation> := [];
    var executedMap: map<string, Invocation> := map[];
    var spill: seq<Invocation> := [];
    for i := 0 to |calls|
      invariant |turns| == i && IsRun(srv, calls, turns)
      invariant out == Flat(turns) && executedMap == Latest(turns) && spill == SpillAfter(turns)
    {
      var call := calls[i];
      var res := ResolveArgs(Some(call.args), Env(executedMap, srv.eval));
      var plan := Admit(srv, i, call.name, res);
      if plan.Panic? {
        assert PanicsNext(srv, calls, turns);
        return None;
      }
      var turn := TurnOf(srv, i, call, plan, spill);
      out := out + [turn.resp] + turn.extras;
      executedMap := executedMap[call.callId := turn.resp];
      spill := turn.spill;
      ExtendRun(srv, calls, turns, res);
      OneMoreTurn(turns, turn);
      turns := turns + [turn];
    }
    responses := Some(out);
  }

  lemma OneMoreTurn(turns: seq<Turn>, t: Turn)
    ensures Flat(turns + [t]) == Flat(turns) + [t.resp] + t.extras
    ensures Latest(turns + [t]) == Latest(turns)[t.resp.callId := t.resp] && SpillAfter(turns + [t]) == t.spill
  {
    assert (turns + [t])[..|turns|] == turns;
  }

  lemma ExtendRun(srv: Server, calls: seq<Invocation>, turns: seq<Turn>, res: Resolution)
    requires IsRun(srv, calls, turns) && |turns| < |calls|
    requires Resolves(srv, calls[|turns|].args, turns, res) && !Admit(srv, |turns|, calls[|turns|].name, res).Panic?
    ensures var n := |turns|;
            IsRun(srv, calls, turns + [TurnOf(srv, n, calls[n], Admit(srv, n, calls[n].name, res), SpillAfter(turns))])
  {
    var n := |turns|;
    var next := turns + [TurnOf(srv, n, calls[n], Admit(srv, n, calls[n].name, res), SpillAfter(turns))];
    forall i | 0 <= i < |next| ensures TookTurn(srv, calls, next, i) {
      assert i <= n ==> next[..i] == turns[..i];
      if i < n {
        assert TookTurn(srv, calls, turns, i);
      } else {
        assert next[..n] == turns;
      }
    }
  }

  // ----- what every run guarantees -----

  /** Strictly increasing positions in the list, one per call, each holding a response under that
      call's id. */
  ghost predicate OnePerCall(calls: seq<Invocation>, list: seq<Invocation>, pos: seq<nat>) {
    && |pos| == |calls|
    && (forall i :: 0 <= i < |pos| ==> pos[i] < |list| && list[pos[i]].callId == calls[i].callId)
    && (forall i, j :: 0 <= i < j < |pos| ==> pos[i] < pos[j])
  }

  /** The entries of the list at the other positions. */
  ghost function Without(list: seq<Invocation>, skip: set<nat>): seq<Invocation> {
    if list == [] then []
    else
      var n := |list| - 1;
      Without(list[..n], skip) + if n in skip then [] else [list[n]]
  }

  /** What the handler of turn `i`, if it ran, left in the spill. */
  ghost function SpilledBy(srv: Server, calls: seq<Invocation>, turns: seq<Turn>, i: nat): seq<Invocation>
    requires i < |turns| <= |calls|
  {
    match turns[i].ran case None => [] case Some(args) => srv.handler(i, calls[i].name, args).spilled
  }

  /** Everything the handlers of the run left in the spill, in order. */
  ghost function AllSpilled(srv: Server, calls: seq<Invocation>, turns: seq<Turn>): seq<Invocation>
    requires |turns| <= |calls|
  {
    if turns == [] then []
    else
      var n := |turns| - 1;
      AllSpilled(srv, calls, turns[..n]) + SpilledBy(srv, calls, turns, n)
  }

  /** The response of call `i` is what its handler returned, put in shape unless the call is an echo; or,
      when no handler ran, an error. */
  ghost predicate Answered(srv: Server, calls: seq<Invocation>, turns: seq<Turn>, i: nat)
    requires i < |turns| <= |calls|
  {
    var resp := turns[i].resp;
    match turns[i].ran
    case None => resp.name == "error" && exists e :: resp.args == map["type" := Str(e)]
    case Some(args) =>
      var h := srv.handler(i, calls[i].name, args);
      && resp.name == h.name
      && resp.args == if calls[i].name == "Core/echo" then h.args else srv.shape(h.name, h.args)
  }

  lemma ResponsesAnswer(srv: Server, calls: seq<Invocation>, turns: seq<Turn>, i: nat)
    requires IsRun(srv, calls, turns) && i < |turns|
    ensures Answered(srv, calls, turns, i)
  {
    assert TookTurn(srv, calls, turns, i);
    var res :| Resolves(srv, calls[i].args, turns[..i], res) && !Admit(srv, i, calls[i].name, res).Panic?
               && turns[i] == TurnOf(srv, i, calls[i], Admit(srv, i, calls[i].name, res), SpillAfter(turns[..i]));
    EchoExactly(srv, i, calls[i].name, res);
  }

  lemma EchoExactly(srv: Server, i: nat, name: string, res: Resolution)
    requires res.Resolved? ==> res.value.Obj?
    ensures Admit(srv, i, name, res).Echo? ==> name == "Core/echo"
    ensures Admit(srv, i, name, res).Run? ==> name != "Core/echo"
  {
  }

  /** The list is made of the turns' responses at `pos` and of the spilled ones: all of those, in order
      and once each, except for what is still in the spill when the last call is done. */
  ghost predicate Accounts(srv: Server, calls: seq<Invocation>, list: seq<Invocation>, turns: seq<Turn>,
                           pos: seq<nat>)
  {
    && IsRun(srv, calls, turns) && |turns| == |calls| && OnePerCall(calls, list, pos)
    && (forall i :: 0 <= i < |pos| ==> list[pos[i]] == turns[i].resp && Answered(srv, calls, turns, i))
    && Without(list, Elems(pos)) + ShapeAll(srv, SpillAfter(turns)) == ShapeAll(srv, AllSpilled(srv, calls, turns))
  }

  /** Spilled responses aside, the response list holds exactly one entry per call, in call order and
      under that call's id. */
  lemma OneResponsePerCall(srv: Server, calls: seq<Invocation>, list: seq<Invocation>)
    requires Answers(srv, calls, Some(list))
    ensures exists turns, pos :: Accounts(srv, calls, list, turns, pos)
  {
    var turns :| IsRun(srv, calls, turns) && |turns| == |calls| && list == Flat(turns);
    RunAccounts(srv, calls, turns);
  }

  lemma RunAccounts(srv: Server, calls: seq<Invocation>, turns: seq<Turn>)
    requires IsRun(srv, calls, turns) && |turns| == |calls|
    ensures Accounts(srv, calls, Flat(turns), turns, Positions(turns))
  {
    PositionsFit(turns);
    OthersAreExtras(turns);
    SpillConserved(srv, calls, turns);
    ResponsesUnderOwnId(srv, calls, turns);
    forall i | 0 <= i < |turns| ensures Answered(srv, calls, turns, i) { ResponsesAnswer(srv, calls, turns, i); }
  }

  lemma ResponsesUnderOwnId(srv: Server, calls: seq<Invocation>, turns: seq<Turn>)
    requires IsRun(srv, calls, turns)
    ensures forall i :: 0 <= i < |turns| ==> turns[i].resp.callId == calls[i].callId
  {
    forall i | 0 <= i < |turns| ensures turns[i].resp.callId == calls[i].callId {
      assert TookTurn(srv, calls, turns, i);
    }
  }

  /** Where the responses of the turns stand in the list. */
  ghost function Positions(turns: seq<Turn>): seq<nat> {
    if turns == [] then [] else Positions(turns[..|turns| - 1]) + [|Flat(turns[..|turns| - 1])|]
  }

  ghost function Extras(turns: seq<Turn>): seq<Invocation> {
    if turns == [] then [] else Extras(turns[..|turns| - 1]) + turns[|turns| - 1].extras
  }

  lemma {:induction false} PositionsFit(turns: seq<Turn>)
    ensures var pos, list := Positions(turns), Flat(turns);
            && |pos| == |turns|
            && (forall i :: 0 <= i < |pos| ==> pos[i] < |list| && list[pos[i]] == turns[i].resp)
            && (forall i, j :: 0 <= i < j < |pos| ==> pos[i] < pos[j])
  {
    if turns != [] {
      var init, t := turns[..|turns| - 1], turns[|turns| - 1];
      PositionsFit(init);
      var head := Flat(init);
      assert Flat(turns) == head + ([t.resp] + t.extras);
      assert forall i :: 0 <= i < |init| ==> turns[i] == init[i];
    }
  }

  /** Positions beyond the end of a list leave nothing more out of it. */
  lemma {:induction false} WithoutBeyond(list: seq<Invocation>, skip: set<nat>, more: set<nat>)
    requires forall k :: k in more ==> k >= |list|
    ensures Without(list, skip + more) == Without(list, skip)
  {
    if list != [] { WithoutBeyond(list[..|list| - 1], skip, more); }
  }

  lemma {:induction false} WithoutAppend(list: seq<Invocation>, tail: seq<Invocation>, skip: set<nat>)
    requires forall k :: k in skip ==> k < |list|
    ensures Without(list + tail, skip) == Without(list, skip) + tail
    decreases |tail|
  {
    if tail == [] {
      assert list + tail == list;
    } else {
      var n := |tail| - 1;
      assert (list + tail)[..|list| + n] == list + tail[..n];
      WithoutAppend(list, tail[..n], skip);
    }
  }

  lemma WithoutTurn(list: seq<Invocation>, resp: Invocation, extras: seq<Invocation>, skip: set<nat>)
    requires forall k :: k in skip ==> k < |list|
    ensures Without(list + [resp] + extras, skip + {|list|}) == Without(list, skip) + extras
  {
    WithoutBeyond(list, skip, {|list|});
    assert (list + [resp])[..|list|] == list;
    assert Without(list + [resp], skip + {|list|}) == Without(list, skip);
    WithoutAppend(list + [resp], extras, skip + {|list|});
  }

  lemma {:induction false} OthersAreExtras(turns: seq<Turn>)
    ensures Without(Flat(turns), Elems(Positions(turns))) == Extras(turns)
  {
    if turns != [] {
      var init, t := turns[..|turns| - 1], turns[|turns| - 1];
      OthersAreExtras(init);
      PositionsFit(init);
      WithoutTurn(Flat(init), t.resp, t.extras, Elems(Positions(init)));
      ElemsSnoc(Positions(init), |Flat(init)|);
    }
  }

  lemma ElemsSnoc(pos: seq<nat>, k: nat)
    ensures Elems(pos + [k]) == Elems(pos) + {k}
  {
  }

  /** Spilled responses are put in shape one by one. */
  lemma {:induction false} ShapedEach(srv: Server, invs: seq<Invocation>, i: nat)
    requires i < |invs|
    ensures |ShapeAll(srv, invs)| == |invs|
    ensures ShapeAll(srv, invs)[i] == Invocation(invs[i].name, srv.shape(invs[i].name, invs[i].args), invs[i].callId)
  {
    var n := |invs| - 1;
    ShapeLength(srv, invs[..n]);
    if i < n { ShapedEach(srv, invs[..n], i); }
  }

  lemma {:induction false} ShapeLength(srv: Server, invs: seq<Invocation>)
    ensures |ShapeAll(srv, invs)| == |invs|
  {
    if invs != [] { ShapeLength(srv, invs[..|invs| - 1]); }
  }

  lemma {:induction false} ShapeConcat(srv: Server, a: seq<Invocation>, b: seq<Invocation>)
    ensures ShapeAll(srv, a + b) == ShapeAll(srv, a) + ShapeAll(srv, b)
    decreases |b|
  {
    if b == [] {
      assert a + b == a;
    } else {
      assert (a + b)[..|a + b| - 1] == a + b[..|b| - 1];
      ShapeConcat(srv, a, b[..|b| - 1]);
    }
  }

  lemma RunPrefix(srv: Server, calls: seq<Invocation>, turns: seq<Turn>, n: nat)
    requires IsRun(srv, calls, turns) && n <= |turns|
    ensures IsRun(srv, calls, turns[..n])
  {
    forall i | 0 <= i < n ensures TookTurn(srv, calls, turns[..n], i) {
      assert TookTurn(srv, calls, turns, i) && turns[..n][..i] == turns[..i];
    }
  }

  /** A turn passes on what was in the spill and what its handler added. */
  lemma TurnConserves(srv: Server, calls: seq<Invocation>, turns: seq<Turn>, i: nat)
    requires i < |turns| <= |calls| && TookTurn(srv, calls, turns, i)
    ensures ShapeAll(srv, SpillAfter(turns[..i]) + SpilledBy(srv, calls, turns, i))
            == turns[i].extras + ShapeAll(srv, turns[i].spill)
  {
    var res :| Resolves(srv, calls[i].args, turns[..i], res) && !Admit(srv, i, calls[i].name, res).Panic?
               && turns[i] == TurnOf(srv, i, calls[i], Admit(srv, i, calls[i].name, res), SpillAfter(turns[..i]));
    var plan := Admit(srv, i, calls[i].name, res);
    var spill := SpillAfter(turns[..i]);
    match plan {
      case Reject(_) => assert spill + [] == spill;
      case _ =>
    }
  }

  /** No spilled response is lost, repeated or reordered. */
  lemma {:induction false} SpillConserved(srv: Server, calls: seq<Invocation>, turns: seq<Turn>)
    requires IsRun(srv, calls, turns)
    ensures Extras(turns) + ShapeAll(srv, SpillAfter(turns)) == ShapeAll(srv, AllSpilled(srv, calls, turns))
  {
    if turns != [] {
      var n := |turns| - 1;
      RunPrefix(srv, calls, turns, n);
      SpillConserved(srv, calls, turns[..n]);
      assert TookTurn(srv, calls, turns, n);
      TurnConserves(srv, calls, turns, n);
      ShapeConcat(srv, AllSpilled(srv, calls, turns[..n]), SpilledBy(srv, calls, turns, n));
      ShapeConcat(srv, SpillAfter(turns[..n]), SpilledBy(srv, calls, turns, n));
      Regroup(Extras(turns[..n]), ShapeAll(srv, SpillAfter(turns[..n])), ShapeAll(srv, SpilledBy(srv, calls, turns, n)),
              turns[n].extras, ShapeAll(srv, turns[n].spill));
    }
  }

  lemma Regroup(e: seq<Invocation>, s: seq<Invocation>, m: seq<Invocation>, x: seq<Invocation>, s': seq<Invocation>)
    requires s + m == x + s'
    ensures (e + s) + m == (e + x) + s'
  {
    assert (e + s) + m == e + (s + m);
  }

  lemma {:induction false} LatestMeaning(turns: seq<Turn>, id: string)
    ensures id in Latest(turns) <==> exists j :: 0 <= j < |turns| && turns[j].resp.callId == id
    ensures id in Latest(turns) ==>
              exists j :: 0 <= j < |turns| && turns[j].resp.callId == id && Latest(turns)[id] == turns[j].resp
                          && forall k :: j < k < |turns| ==> turns[k].resp.callId != id
  {
    if turns != [] {
      var n := |turns| - 1;
      LatestMeaning(turns[..n], id);
      if turns[n].resp.callId != id && id in Latest(turns[..n]) {
        var j :| 0 <= j < n && turns[..n][j].resp.callId == id && Latest(turns[..n])[id] == turns[..n][j].resp
                 && forall k :: j < k < n ==> turns[..n][k].resp.callId != id;
        assert turns[j].resp.callId == id;
        forall k | j < k < |turns| ensures turns[k].resp.callId != id {
          if k < n { assert turns[..n][k] == turns[k]; }
        }
      }
    }
  }

  /** A reference of call `i` that resolves reads the latest response of an earlier call. */
  lemma ReferencesLookBack(srv: Server, turns: seq<Turn>, i: nat, m: Args)
    requires i <= |turns| && ResolveReference(m, Env(Latest(turns[..i]), srv.eval)).Some?
    ensures exists j :: 0 <= j < i && turns[j].resp.callId == StringAt(m, "resultOf")
                        && turns[j].resp.name == StringAt(m, "name")
                        && ResolveReference(m, Env(Latest(turns[..i]), srv.eval))
                           == srv.eval(turns[j].resp.args, StringAt(m, "path"))
                        && forall k :: j < k < i ==> turns[k].resp.callId != StringAt(m, "resultOf")
  {
    var id := StringAt(m, "resultOf");
    LatestMeaning(turns[..i], id);
    var j :| 0 <= j < i && turns[..i][j].resp.callId == id && Latest(turns[..i])[id] == turns[..i][j].resp
             && forall k :: j < k < i ==> turns[..i][k].resp.callId != id;
    assert turns[..i][j] == turns[j];
    forall k | j < k < i ensures turns[k].resp.callId != id { assert turns[..i][k] == turns[k]; }
  }

  /** The objects that a /set call creates, updates and destroys. */
  ghost function ObjectsIn(args: Args): nat {
    (if "create" in args && args["create"].Obj? then |args["create"].fields| else 0)
    + (if "update" in args && args["update"].Obj? then |args["update"].fields| else 0)
    + if "destroy" in args && args["destroy"].Arr? then |args["destroy"].items| else 0
  }

  ghost predicate WithinLimits(srv: Server, name: string, args: Args) {
    && (HasSuffix(name, "/get") && srv.maxObjectsInGet > 0 && "ids" in args && args["ids"].Arr? ==>
          |args["ids"].items| <= srv.maxObjectsInGet)
    && (HasSuffix(name, "/set") && srv.maxObjectsInSet > 0 ==> ObjectsIn(args) <= srv.maxObjectsInSet)
  }

  /** The account checks only shorten the list of ids and rewrite the account. */
  lemma AccountChecksKeepLimits(srv: Server, i: nat, name: string, args: Args)
    requires WithinLimits(srv, name, args) && AdmitAccount(srv, i, name, args).Run?
    ensures WithinLimits(srv, name, AdmitAccount(srv, i, name, args).args)
  {
    var final := AdmitAccount(srv, i, name, args).args;
    assert ObjectsIn(final) == ObjectsIn(args);
    assert "ids" in args && args["ids"].Arr? ==> |final["ids"].items| <= |args["ids"].items|;
  }

  lemma AdmitWithinLimits(srv: Server, i: nat, name: string, res: Resolution)
    requires res.Resolved? ==> res.value.Obj?
    ensures var plan := Admit(srv, i, name, res);
            plan.Echo? || plan.Run? ==> WithinLimits(srv, name, plan.args)
  {
    var plan := Admit(srv, i, name, res);
    if plan.Run? && !HasPrefix(name, "PushSubscription/") {
      AccountChecksKeepLimits(srv, i, name, res.value.fields);
    }
  }

  /** No handler of a /get or /set call ever sees more ids or objects than a positive limit. */
  lemma HandlersWithinLimits(srv: Server, calls: seq<Invocation>, turns: seq<Turn>, i: nat)
    requires IsRun(srv, calls, turns) && i < |turns| && turns[i].ran.Some?
    ensures WithinLimits(srv, calls[i].name, turns[i].ran.value)
  {
    assert TookTurn(srv, calls, turns, i);
    var res :| Resolves(srv, calls[i].args, turns[..i], res) && !Admit(srv, i, calls[i].name, res).Panic?
               && turns[i] == TurnOf(srv, i, calls[i], Admit(srv, i, calls[i].name, res), SpillAfter(turns[..i]));
    AdmitWithinLimits(srv, i, calls[i].name, res);
  }

  /** The account named in the call is the caller's own or one the guard lets it use, and the
      handler is told which. */
  ghost predicate MayUse(srv: Server, i: nat, given: Args, args: Args) {
    && "accountId" in given && given["accountId"].Str? && "accountId" in args && args["accountId"].Str?
    && var asked, told := given["accountId"].s, args["accountId"].s;
       if asked == "primary" || asked == srv.principal || srv.accountOf(asked) == srv.principal
       then told == srv.principal
       else told == asked && srv.access(i, asked).None?
  }

  /** The arguments a handler sees are the resolved ones, but for the account and for ids listed
      more than once. */
  ghost predicate SameRequest(given: Args, args: Args) {
    && args.Keys == given.Keys
    && (forall k :: k in given && k != "ids" && k != "accountId" ==> args[k] == given[k])
    && ("ids" in given ==>
          if given["ids"].Arr? then args["ids"].Arr? && forall j :: j in args["ids"].items <==> j in given["ids"].items
          else args["ids"] == given["ids"])
  }

  lemma AccountRunMeaning(srv: Server, i: nat, name: string, given: Args)
    requires AdmitAccount(srv, i, name, given).Run?
    ensures MayUse(srv, i, given, AdmitAccount(srv, i, name, given).args)
    ensures SameRequest(given, AdmitAccount(srv, i, name, given).args)
  {
    var args := AdmitAccount(srv, i, name, given).args;
    assert args.Keys == given.Keys;
  }

  /** A handler runs only for a registered method whose capability the request declared, on
      arguments without a failing reference, and, unless it is an echo or concerns push
      subscriptions, only on an account the caller may use. */
  lemma HandlersOnlyWhenEntitled(srv: Server, calls: seq<Invocation>, turns: seq<Turn>, i: nat)
    requires IsRun(srv, calls, turns) && i < |turns| && turns[i].ran.Some?
    ensures var name, env := calls[i].name, Env(Latest(turns[..i]), srv.eval);
            && srv.registered(name) && (srv.requiredCapability(name) in srv.using || CORE in srv.using)
            && !Fails(Obj(calls[i].args), env, true) && Value(Obj(calls[i].args), env, true).Obj?
            && var given, args := Value(Obj(calls[i].args), env, true).fields, turns[i].ran.value;
               && SameRequest(given, args)
               && (name == "Core/echo" || HasPrefix(name, "PushSubscription/") || MayUse(srv, i, given, args))
  {
    assert TookTurn(srv, calls, turns, i);
    var res :| Resolves(srv, calls[i].args, turns[..i], res) && !Admit(srv, i, calls[i].name, res).Panic?
               && turns[i] == TurnOf(srv, i, calls[i], Admit(srv, i, calls[i].name, res), SpillAfter(turns[..i]));
    AdmitMeaning(srv, i, calls[i].name, res);
  }

  lemma AdmitMeaning(srv: Server, i: nat, name: string, res: Resolution)
    requires res.Resolved? ==> res.value.Obj?
    requires Admit(srv, i, name, res).Run? || Admit(srv, i, name, res).Echo?
    ensures res.Resolved? && srv.registered(name) && (srv.requiredCapability(name) in srv.using || CORE in srv.using)
    ensures SameRequest(res.value.fields, Admit(srv, i, name, res).args)
    ensures name == "Core/echo" || HasPrefix(name, "PushSubscription/")
            || MayUse(srv, i, res.value.fields, Admit(srv, i, name, res).args)
  {
    if name != "Core/echo" && !HasPrefix(name, "PushSubscription/") {
      AccountRunMeaning(srv, i, name, res.value.fields);
    }
  }

  /** The call gets as far as removing repeated ids. */
  predicate ReachesDedup(srv: Server, name: string, args: Args) {
    && (srv.requiredCapability(name) in srv.using || CORE in srv.using)
    && (HasPrefix(name, "MDN/") ==> MDN in srv.using)
    && HasSuffix(name, "/get") && !HasPrefix(name, "PushSubscription/") && srv.registered(name)
    && (srv.maxObjectsInGet > 0 ==> ListSize(args, "ids") <= srv.maxObjectsInGet)
    && Present(args, "accountId") && args["accountId"].Str? && args["accountId"].s != ""
    && "ids" in args && args["ids"].Arr?
  }

  /** A call panics exactly when it gets to removing repeated ids and one of the ids is an array or
      an object, which Go cannot use as a map key. */
  lemma PanicExactly(srv: Server, i: nat, name: string, args: Args)
    ensures Admit(srv, i, name, Resolved(Obj(args))).Panic?
            <==> ReachesDedup(srv, name, args) && exists j :: j in args["ids"].items && Unhashable(j)
  {
    if HasSuffix(name, "/get") {
      assert name[|name| - 4..] == "/get";
      assert name != "MDN/send" && name != "Core/echo" && !HasSuffix(name, "/set");
    }
  }

  const BAD_GET: Args := map["accountId" := Str("primary"), "ids" := Arr([Obj(map[])])]

  lemma BadGetHasNoReference()
    ensures RefFree(Obj(BAD_GET), true)
  {
    assert RefFree(Obj(map[]), false);
    var list := Arr([Obj(map[])]);
    assert RefFree(list, false) by {
      forall i | 0 <= i < |list.items| ensures RefFree(list.items[i], false) {}
    }
    forall k | k in BAD_GET ensures !Treated(k, BAD_GET[k], true) && RefFree(BAD_GET[k], false) {
      assert k == "accountId" || k == "ids";
      assert k[..1] == ['a'] || k[..1] == ['i'];
    }
  }

  lemma BadGetPanics(srv: Server)
    requires CORE in srv.using && srv.registered("Email/get")
    ensures Admit(srv, 0, "Email/get", Resolved(Obj(BAD_GET))).Panic?
  {
    assert ReachesDedup(srv, "Email/get", BAD_GET) by {
      assert "Email/get"[..4] == "Emai" && "Email/get"[5..] == "/get";
    }
    assert Obj(map[]) in BAD_GET["ids"].items && Unhashable(Obj(map[]));
    PanicExactly(srv, 0, "Email/get", BAD_GET);
  }

  lemma AnyKindFails(j: Json, env: Env, top: bool)
    ensures forall kind :: FailsWith(j, env, top, kind) ==> Fails(j, env, top)
  {
    forall kind | FailsWith(j, env, top, kind) ensures Fails(j, env, top) {
      match kind
      case InvalidArguments =>
      case InvalidResultReference =>
    }
  }

  /** Whether a call panics is settled by the responses before it. */
  lemma SameResolution(srv: Server, args: Args, turns: seq<Turn>, res: Resolution, res': Resolution)
    requires Resolves(srv, args, turns, res) && Resolves(srv, args, turns, res') && res.Resolved?
    ensures res' == res
  {
    AnyKindFails(Obj(args), Env(Latest(turns), srv.eval), true);
  }

  /** A panic ends the matter: no run goes on from where the next call panics. */
  lemma NoRunPastPanic(srv: Server, calls: seq<Invocation>, turns: seq<Turn>)
    requires PanicsNext(srv, calls, turns)
    ensures forall longer :: IsRun(srv, calls, longer) ==> !(turns < longer)
  {
    var n := |turns|;
    var res :| Resolves(srv, calls[n].args, turns, res) && Admit(srv, n, calls[n].name, res).Panic?;
    forall longer | IsRun(srv, calls, longer) ensures !(turns < longer) {
      if turns < longer {
        assert TookTurn(srv, calls, longer, n) && longer[..n] == turns;
        var res' :| Resolves(srv, calls[n].args, turns, res') && !Admit(srv, n, calls[n].name, res').Panic?;
        SameResolution(srv, calls[n].args, turns, res, res');
        assert false;
      }
    }
  }

  /** So one such id leaves the whole request without a response list. */
  lemma OneBadIdLosesTheRequest(srv: Server)
    requires CORE in srv.using && srv.registered("Email/get")
    ensures var calls := [Invocation("Email/get", BAD_GET, "c1")];
            PanicsNext(srv, calls, []) && forall list :: !Answers(srv, calls, Some(list))
  {
    var calls := [Invocation("Email/get", BAD_GET, "c1")];
    BadGetPanicsNext(srv);
    NoRunPastPanic(srv, calls, []);
  }

  lemma BadGetPanicsNext(srv: Server)
    requires CORE in srv.using && srv.registered("Email/get")
    ensures PanicsNext(srv, [Invocation("Email/get", BAD_GET, "c1")], [])
  {
    BadGetHasNoReference();
    RefFreeUnchanged(Obj(BAD_GET), Env(Latest([]), srv.eval), true);
    BadGetPanics(srv);
    var calls := [Invocation("Email/get", BAD_GET, "c1")];
    assert Resolves(srv, calls[0].args, [], Resolved(Obj(BAD_GET)));
  }
}
