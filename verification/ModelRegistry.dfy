/** model_registry.py: the promotion state machine and the lineage walk. Model
    ids follow Python's truth test, so the empty id counts as no id. */
module ModelRegistry {
  import opened Prelude

  datatype Status = Staging | Production | Archived | RolledBack

  datatype Version = Version(status: Status, parent: Option<string>, deployedBy: Option<string>,
                             deployedAt: Option<int>)

  datatype Registry = Registry(versions: map<string, Version>, production: Option<string>)

  predicate Truthy(id: Option<string>) {
    id.Some? && id.value != ""
  }

  const EMPTY := Registry(map[], None)

  // ----- the operations on values

  function Register(r: Registry, id: string, parent: Option<string>): Registry {
    r.(versions := r.versions[id := Version(Staging, parent, None, None)])
  }

  /** The current production model steps down to the given status. */
  function StepDown(r: Registry, status: Status): map<string, Version> {
    if Truthy(r.production) && r.production.value in r.versions
    then r.versions[r.production.value := r.versions[r.production.value].(status := status)]
    else r.versions
  }

  function Promote(r: Registry, id: string, who: Option<string>, at: int): Registry {
    if id !in r.versions then r
    else
      var vs := StepDown(r, Archived);
      Registry(vs[id := vs[id].(status := Production, deployedBy := who, deployedAt := Some(at))], Some(id))
  }

  function Rollback(r: Registry, id: string): Registry {
    if id !in r.versions then r
    else
      var vs := StepDown(r, RolledBack);
      Registry(vs[id := vs[id].(status := Production)], Some(id))
  }

  function Delete(r: Registry, id: string): Registry {
    if Some(id) == r.production then r else r.(versions := r.versions - {id})
  }

  datatype Op =
    | Registering(id: string, parent: Option<string>)
    | Promoting(id: string, who: Option<string>, at: int)
    | RollingBack(id: string)
    | Deleting(id: string)

  function Apply(r: Registry, op: Op): Registry {
    match op
    case Registering(id, parent) => Register(r, id, parent)
    case Promoting(id, who, at) => Promote(r, id, who, at)
    case RollingBack(id) => Rollback(r, id)
    case Deleting(id) => Delete(r, id)
  }

  /** The registry after a whole run of operations, from empty. */
  function Run(ops: seq<Op>): Registry {
    if ops == [] then EMPTY else Apply(Run(ops[..|ops| - 1]), ops[|ops| - 1])
  }

  // ----- what each operation changes, and what it leaves alone

  /** The versions of two states agree, except possibly at these ids. */
  ghost predicate SameBut(r: Registry, after: Registry, ids: set<string>) {
    && after.versions.Keys - ids == r.versions.Keys - ids
    && forall k :: k in r.versions && k !in ids ==> k in after.versions && after.versions[k] == r.versions[k]
  }

  lemma RegisteringSets(r: Registry, id: string, parent: Option<string>)
    ensures var after := Apply(r, Registering(id, parent));
      && id in after.versions && after.versions[id] == Version(Staging, parent, None, None)
      && SameBut(r, after, {id}) && after.production == r.production
  {
  }

  /** The former production model, if another, is archived; nobody else moves. */
  lemma PromotingSets(r: Registry, id: string, who: Option<string>, at: int)
    ensures var after := Apply(r, Promoting(id, who, at));
      if id !in r.versions then after == r
      else
        && id in after.versions && after.production == Some(id)
        && after.versions[id] == Version(Production, r.versions[id].parent, who, Some(at))
        && SameBut(r, after, {id} + Former(r))
        && forall k :: k in Former(r) && k != id ==>
          k in after.versions && after.versions[k] == r.versions[k].(status := Archived)
  {
  }

  /** Likewise on a rollback, but it is marked as rolled back, and the target
      keeps who deployed it and when. */
  lemma RollingBackSets(r: Registry, id: string)
    ensures var after := Apply(r, RollingBack(id));
      if id !in r.versions then after == r
      else
        && id in after.versions && after.production == Some(id)
        && after.versions[id] == r.versions[id].(status := Production)
        && SameBut(r, after, {id} + Former(r))
        && forall k :: k in Former(r) && k != id ==>
          k in after.versions && after.versions[k] == r.versions[k].(status := RolledBack)
  {
  }

  /** The production model stays; any other id goes, and it alone. */
  lemma DeletingRemoves(r: Registry, id: string)
    ensures var after := Apply(r, Deleting(id));
      && after.production == r.production
      && (r.production == Some(id) ==> after == r)
      && (r.production != Some(id) ==> id !in after.versions && SameBut(r, after, {id}))
  {
  }

  /** The production model that an operation can make step down. */
  ghost function Former(r: Registry): set<string> {
    set k | k in r.versions && r.production == Some(k) && k != ""
  }

  // ----- the production pointer

  predicate PointerPresent(r: Registry) {
    r.production.Some? ==> r.production.value in r.versions
  }

  /** No version but the one pointed to has the production status. */
  ghost predicate Exclusive(r: Registry) {
    forall id :: id in r.versions && r.versions[id].status == Production ==> r.production == Some(id)
  }

  predicate PointerMarked(r: Registry) {
    r.production.Some? && r.production.value in r.versions ==> r.versions[r.production.value].status == Production
  }

  /** In every reachable state the production pointer names a present version. */
  lemma {:induction false} PointerAlwaysPresent(ops: seq<Op>)
    ensures PointerPresent(Run(ops))
  {
    if ops != [] {
      PointerAlwaysPresent(ops[..|ops| - 1]);
    }
  }

  /** Another model takes over from a production model whose id is empty. */
  predicate TakesOverEmptyId(r: Registry, op: Op) {
    && (op.Promoting? || op.RollingBack?)
    && op.id in r.versions && op.id != ""
    && r.production == Some("") && "" in r.versions && r.versions[""].status == Production
  }

  /** One operation keeps the production status exclusive exactly when it does
      not take over from the empty id, which the code mistakes for no model. */
  lemma ExclusiveStepIff(r: Registry, op: Op)
    requires Exclusive(r)
    ensures Exclusive(Apply(r, op)) <==> !TakesOverEmptyId(r, op)
  {
    var after := Apply(r, op);
    if TakesOverEmptyId(r, op) {
      assert after.versions[""].status == Production && after.production == Some(op.id);
    } else {
      forall id | id in after.versions && after.versions[id].status == Production
        ensures after.production == Some(id)
      {
        match op
        case Registering(_, _) => assert id in r.versions && r.versions[id].status == Production;
        case Promoting(_, _, _) => assert id == op.id || (id in r.versions && r.versions[id].status == Production);
        case RollingBack(_) => assert id == op.id || (id in r.versions && r.versions[id].status == Production);
        case Deleting(_) => assert id in r.versions && r.versions[id].status == Production;
      }
    }
  }

  /** Every state of a run is exclusive exactly when no step takes over from the
      empty id. */
  lemma AlwaysExclusiveIff(ops: seq<Op>)
    ensures (forall n :: 0 <= n <= |ops| ==> Exclusive(Run(ops[..n])))
      <==> forall n :: 0 <= n < |ops| ==> !TakesOverEmptyId(Run(ops[..n]), ops[n])
  {
    hide Exclusive, TakesOverEmptyId, Apply;
    if forall n :: 0 <= n <= |ops| ==> Exclusive(Run(ops[..n])) {
      forall n | 0 <= n < |ops|
        ensures !TakesOverEmptyId(Run(ops[..n]), ops[n])
      {
        ExclusiveRunStep(ops, n);
        assert Exclusive(Run(ops[..n])) && Exclusive(Run(ops[..n + 1]));
      }
    }
    if forall n :: 0 <= n < |ops| ==> !TakesOverEmptyId(Run(ops[..n]), ops[n]) {
      EmptyIsExclusive(ops);
      for n := 0 to |ops|
        invariant forall m :: 0 <= m <= n ==> Exclusive(Run(ops[..m]))
      {
        ExclusiveRunStep(ops, n);
      }
    }
  }

  lemma EmptyIsExclusive(ops: seq<Op>)
    ensures Exclusive(Run(ops[..0]))
  {
  }

  lemma ExclusiveRunStep(ops: seq<Op>, n: nat)
    requires n < |ops|
    ensures Exclusive(Run(ops[..n])) ==> (Exclusive(Run(ops[..n + 1])) <==> !TakesOverEmptyId(Run(ops[..n]), ops[n]))
  {
    RunStep(ops, n);
    if Exclusive(Run(ops[..n])) {
      ExclusiveStepIff(Run(ops[..n]), ops[n]);
    }
  }

  lemma RunStep(ops: seq<Op>, n: nat)
    requires n < |ops|
    ensures Run(ops[..n + 1]) == Apply(Run(ops[..n]), ops[n])
  {
    assert ops[..n + 1][..n] == ops[..n];
  }

  /** In particular, runs over non-empty ids are exclusive throughout. */
  lemma NonEmptyIdsStayExclusive(ops: seq<Op>)
    requires forall n :: 0 <= n < |ops| ==> ops[n].id != ""
    ensures Exclusive(Run(ops))
  {
    forall n | 0 <= n < |ops|
      ensures !TakesOverEmptyId(Run(ops[..n]), ops[n])
    {
      ProductionWasAnId(ops, n);
    }
    AlwaysExclusiveIff(ops);
    assert ops[..|ops|] == ops;
  }

  lemma {:induction false} ProductionWasAnId(ops: seq<Op>, n: nat)
    requires n <= |ops| && forall m :: 0 <= m < |ops| ==> ops[m].id != ""
    ensures Run(ops[..n]).production != Some("")
  {
    if n > 0 {
      ProductionWasAnId(ops, n - 1);
      RunStep(ops, n - 1);
    }
  }

  /** Two production models after four operations. */
  lemma EmptyIdKeepsProductionStatus()
    ensures
      var r := Run([Registering("", None), Promoting("", None, 0), Registering("b", None), Promoting("b", None, 1)]);
      r.production == Some("b") && "" in r.versions && "b" in r.versions
      && r.versions[""].status == Production == r.versions["b"].status
  {
    var ops := [Registering("", None), Promoting("", None, 0), Registering("b", None), Promoting("b", None, 1)];
    assert Run(ops[..0]) == EMPTY;
    RunStep(ops, 0);
    RunStep(ops, 1);
    RunStep(ops, 2);
    RunStep(ops, 3);
    assert ops[..4] == ops;
  }

  /** The step registers the id of the production model. */
  predicate RegistersAgain(r: Registry, op: Op) {
    op.Registering? && r.production == Some(op.id)
  }

  lemma EmptyIsMarked(ops: seq<Op>)
    ensures PointerMarked(Run(ops[..0]))
  {
  }

  /** One operation keeps the pointed-to version marked exactly when it does not
      register that id again. */
  lemma MarkedStepIff(r: Registry, op: Op)
    requires PointerPresent(r) && PointerMarked(r)
    ensures PointerMarked(Apply(r, op)) <==> !RegistersAgain(r, op)
  {
  }

  /** Three operations after which the production model has the staging status. */
  lemma RegisteringAgainUnmarks()
    ensures var r := Run([Registering("a", None), Promoting("a", None, 0), Registering("a", None)]);
      r.production == Some("a") && "a" in r.versions && r.versions["a"].status == Staging && !PointerMarked(r)
  {
    var ops := [Registering("a", None), Promoting("a", None, 0), Registering("a", None)];
    assert Run(ops[..0]) == EMPTY;
    RunStep(ops, 0);
    RunStep(ops, 1);
    RunStep(ops, 2);
    assert ops[..3] == ops;
  }

  /** Every state of a run has its production model marked exactly when no step
      registers the current production id again. */
  lemma AlwaysMarkedIff(ops: seq<Op>)
    ensures (forall n :: 0 <= n <= |ops| ==> PointerMarked(Run(ops[..n])))
      <==> forall n :: 0 <= n < |ops| ==> !RegistersAgain(Run(ops[..n]), ops[n])
  {
    hide PointerMarked, RegistersAgain, Apply;
    if forall n :: 0 <= n <= |ops| ==> PointerMarked(Run(ops[..n])) {
      forall n | 0 <= n < |ops|
        ensures !RegistersAgain(Run(ops[..n]), ops[n])
      {
        MarkedRunStep(ops, n);
        assert PointerMarked(Run(ops[..n])) && PointerMarked(Run(ops[..n + 1]));
      }
    }
    if forall n :: 0 <= n < |ops| ==> !RegistersAgain(Run(ops[..n]), ops[n]) {
      EmptyIsMarked(ops);
      for n := 0 to |ops|
        invariant forall m :: 0 <= m <= n ==> PointerMarked(Run(ops[..m]))
      {
        MarkedRunStep(ops, n);
      }
    }
  }

  lemma MarkedRunStep(ops: seq<Op>, n: nat)
    requires n < |ops|
    ensures PointerMarked(Run(ops[..n])) ==>
      (PointerMarked(Run(ops[..n + 1])) <==> !RegistersAgain(Run(ops[..n]), ops[n]))
  {
    PointerAlwaysPresent(ops[..n]);
    RunStep(ops, n);
    if PointerMarked(Run(ops[..n])) {
      MarkedStepIff(Run(ops[..n]), ops[n]);
    }
  }

  // ----- runs that never reuse an id

  predicate RegisteredIn(ops: seq<Op>, id: string) {
    exists n :: 0 <= n < |ops| && ops[n].Registering? && ops[n].id == id
  }

  ghost predicate FreshIds(ops: seq<Op>) {
    forall n :: 0 <= n < |ops| && ops[n].Registering? ==> !RegisteredIn(ops[..n], ops[n].id)
  }

  ghost predicate ParentsFirst(ops: seq<Op>) {
    forall n :: 0 <= n < |ops| && ops[n].Registering? && Truthy(ops[n].parent) ==>
      RegisteredIn(ops[..n], ops[n].parent.value)
  }

  lemma {:induction false} PresentWasRegistered(ops: seq<Op>, id: string)
    ensures id in Run(ops).versions || Run(ops).production == Some(id) ==> RegisteredIn(ops, id)
  {
    if ops != [] {
      var front, last := ops[..|ops| - 1], ops[|ops| - 1];
      PresentWasRegistered(front, id);
      if RegisteredIn(front, id) {
        var n :| 0 <= n < |front| && front[n].Registering? && front[n].id == id;
        assert ops[n] == front[n];
      }
    }
  }

  /** Ids never registered twice: the production model is marked throughout. */
  lemma FreshIdsStayMarked(ops: seq<Op>)
    requires FreshIds(ops)
    ensures PointerMarked(Run(ops))
  {
    forall n | 0 <= n < |ops|
      ensures !RegistersAgain(Run(ops[..n]), ops[n])
    {
      if ops[n].Registering? {
        PresentWasRegistered(ops[..n], ops[n].id);
      }
    }
    AlwaysMarkedIff(ops);
    assert ops[..|ops|] == ops;
  }

  // ----- lineage

  /** The walk goes on: there is an id, and it is registered. */
  predicate Live(vs: map<string, Version>, current: Option<string>) {
    Truthy(current) && current.value in vs
  }

  /** ids is the complete walk along parent links that starts at current. */
  predicate Chain(vs: map<string, Version>, current: Option<string>, ids: seq<string>)
    decreases |ids|
  {
    if Live(vs, current) then
      ids != [] && ids[0] == current.value && Chain(vs, vs[current.value].parent, ids[1..])
    else
      ids == []
  }

  ghost predicate Finite(vs: map<string, Version>, current: Option<string>) {
    exists ids :: Chain(vs, current, ids)
  }

  lemma {:induction false} ChainIsUnique(vs: map<string, Version>, current: Option<string>, a: seq<string>,
                                         b: seq<string>)
    requires Chain(vs, current, a) && Chain(vs, current, b)
    ensures a == b
    decreases |a|
  {
    if Live(vs, current) {
      ChainIsUnique(vs, vs[current.value].parent, a[1..], b[1..]);
      assert a == [a[0]] + a[1..] && b == [b[0]] + b[1..];
    }
  }

  lemma {:induction false} ChainSuffix(vs: map<string, Version>, current: Option<string>, ids: seq<string>, i: nat)
    requires Chain(vs, current, ids) && i < |ids|
    ensures Truthy(Some(ids[i])) && ids[i] in vs && Chain(vs, Some(ids[i]), ids[i..])
    ensures i + 1 < |ids| ==> vs[ids[i]].parent == Some(ids[i + 1])
    ensures i + 1 == |ids| ==> !Live(vs, vs[ids[i]].parent)
    decreases |ids|
  {
    if i == 0 {
      assert current == Some(ids[0]) && ids[0..] == ids;
    } else {
      ChainSuffix(vs, vs[current.value].parent, ids[1..], i - 1);
      assert ids[1..][i - 1..] == ids[i..];
    }
  }

  /** A finite walk visits no version twice. */
  lemma ChainIsDistinct(vs: map<string, Version>, current: Option<string>, ids: seq<string>)
    requires Chain(vs, current, ids)
    ensures forall i, j :: 0 <= i < j < |ids| ==> ids[i] != ids[j]
  {
    forall i, j | 0 <= i < j < |ids|
      ensures ids[i] != ids[j]
    {
      ChainSuffix(vs, current, ids, i);
      ChainSuffix(vs, current, ids, j);
      if ids[i] == ids[j] {
        ChainIsUnique(vs, Some(ids[i]), ids[i..], ids[j..]);
      }
    }
  }

  lemma {:induction false} DistinctFitIn(ids: seq<string>, keys: set<string>)
    requires forall i, j :: 0 <= i < j < |ids| ==> ids[i] != ids[j]
    requires forall i :: 0 <= i < |ids| ==> ids[i] in keys
    ensures |ids| <= |keys|
  {
    if ids != [] {
      DistinctFitIn(ids[1..], keys - {ids[0]});
    }
  }

  /** So the walk takes at most as many steps as there are versions. */
  lemma ChainIsShort(vs: map<string, Version>, current: Option<string>, ids: seq<string>)
    requires Chain(vs, current, ids)
    ensures |ids| <= |vs|
  {
    ChainIsDistinct(vs, current, ids);
    forall i | 0 <= i < |ids|
      ensures ids[i] in vs.Keys
    {
      ChainSuffix(vs, current, ids, i);
    }
    DistinctFitIn(ids, vs.Keys);
  }

  /** Where k steps lead. */
  function After(vs: map<string, Version>, current: Option<string>, k: nat): Option<string>
    decreases k
  {
    if k == 0 then current
    else if Live(vs, current) then After(vs, vs[current.value].parent, k - 1)
    else None
  }

  lemma {:induction false} StoppedMeansChain(vs: map<string, Version>, current: Option<string>, k: nat)
    returns (ids: seq<string>)
    requires !Live(vs, After(vs, current, k))
    ensures Chain(vs, current, ids)
    decreases k
  {
    if Live(vs, current) {
      var rest := StoppedMeansChain(vs, vs[current.value].parent, k - 1);
      ids := [current.value] + rest;
      assert ids[1..] == rest;
    } else {
      ids := [];
    }
  }

  lemma {:induction false} ChainMeansStopped(vs: map<string, Version>, current: Option<string>, ids: seq<string>,
                                             k: nat)
    requires Chain(vs, current, ids) && |ids| <= k
    ensures !Live(vs, After(vs, current, k))
    decreases k
  {
    if Live(vs, current) {
      ChainMeansStopped(vs, vs[current.value].parent, ids[1..], k - 1);
    }
  }

  /** The walk ends exactly when it has stopped after as many steps as there
      are versions. */
  lemma FiniteIffStopped(vs: map<string, Version>, current: Option<string>)
    ensures Finite(vs, current) <==> !Live(vs, After(vs, current, |vs|))
  {
    if Finite(vs, current) {
      var ids :| Chain(vs, current, ids);
      ChainIsShort(vs, current, ids);
      ChainMeansStopped(vs, current, ids, |vs|);
    }
    if !Live(vs, After(vs, current, |vs|)) {
      var ids := StoppedMeansChain(vs, current, |vs|);
    }
  }

  /** Parents registered earlier than their children, by position in `order`. */
  ghost predicate Ordered(vs: map<string, Version>, order: seq<string>) {
    forall id :: id in vs ==>
      exists i :: 0 <= i < |order| && order[i] == id && (Truthy(vs[id].parent) ==> vs[id].parent.value in order[..i])
  }

  ghost predicate NoRepeats(order: seq<string>) {
    forall i, j :: 0 <= i < j < |order| ==> order[i] != order[j]
  }

  function Order(ops: seq<Op>): seq<string> {
    if ops == [] then []
    else Order(ops[..|ops| - 1]) + if ops[|ops| - 1].Registering? then [ops[|ops| - 1].id] else []
  }

  lemma {:induction false} OrderListsRegistered(ops: seq<Op>, id: string)
    ensures id in Order(ops) <==> RegisteredIn(ops, id)
  {
    if ops != [] {
      var front, last := ops[..|ops| - 1], ops[|ops| - 1];
      OrderListsRegistered(front, id);
      if RegisteredIn(front, id) {
        var n :| 0 <= n < |front| && front[n].Registering? && front[n].id == id;
        assert ops[n] == front[n];
      }
      if RegisteredIn(ops, id) && !(last.Registering? && last.id == id) {
        var n :| 0 <= n < |ops| && ops[n].Registering? && ops[n].id == id;
        assert front[n] == ops[n];
      }
    }
  }

  lemma OrderedStep(r: Registry, op: Op, order: seq<string>)
    requires Ordered(r.versions, order)
    requires op.Registering? && Truthy(op.parent) ==> op.parent.value in order
    ensures Ordered(Apply(r, op).versions, order + if op.Registering? then [op.id] else [])
  {
    var vs, longer := Apply(r, op).versions, order + if op.Registering? then [op.id] else [];
    forall id | id in vs
      ensures
        exists i :: 0 <= i < |longer| && longer[i] == id
          && (Truthy(vs[id].parent) ==> vs[id].parent.value in longer[..i])
    {
      if op.Registering? && id == op.id {
        assert longer[|order|] == id && longer[..|order|] == order;
      } else {
        assert id in r.versions && vs[id].parent == r.versions[id].parent;
        var i :| 0 <= i < |order| && order[i] == id &&
          (Truthy(r.versions[id].parent) ==> r.versions[id].parent.value in order[..i]);
        assert longer[i] == id && longer[..i] == order[..i];
      }
    }
  }

  lemma {:induction false} RunIsOrdered(ops: seq<Op>)
    requires FreshIds(ops) && ParentsFirst(ops)
    ensures Ordered(Run(ops).versions, Order(ops)) && NoRepeats(Order(ops))
  {
    if ops != [] {
      var front, last := ops[..|ops| - 1], ops[|ops| - 1];
      Prefixes(ops);
      RunIsOrdered(front);
      if last.Registering? {
        OrderListsRegistered(front, last.id);
        if Truthy(last.parent) {
          OrderListsRegistered(front, last.parent.value);
        }
      }
      OrderedStep(Run(front), last, Order(front));
    }
  }

  lemma Prefixes(ops: seq<Op>)
    requires FreshIds(ops) && ParentsFirst(ops) && ops != []
    ensures FreshIds(ops[..|ops| - 1]) && ParentsFirst(ops[..|ops| - 1])
  {
    var front := ops[..|ops| - 1];
    forall n | 0 <= n < |front|
      ensures front[n] == ops[n] && front[..n] == ops[..n]
    {
    }
  }

  lemma Prepend(vs: map<string, Version>, current: Option<string>)
    requires Live(vs, current) ==> Finite(vs, vs[current.value].parent)
    ensures Finite(vs, current)
  {
    if Live(vs, current) {
      var rest :| Chain(vs, vs[current.value].parent, rest);
      assert ([current.value] + rest)[1..] == rest;
      assert Chain(vs, current, [current.value] + rest);
    } else {
      assert Chain(vs, current, []);
    }
  }

  lemma {:induction false} OrderedMeansFinite(vs: map<string, Version>, order: seq<string>, current: Option<string>,
                                              n: nat)
    requires Ordered(vs, order) && NoRepeats(order) && n <= |order|
    requires Truthy(current) ==> current.value !in vs || current.value in order[..n]
    ensures Finite(vs, current)
    decreases n
  {
    if Live(vs, current) {
      var i :| 0 <= i < |order| && order[i] == current.value
        && (Truthy(vs[current.value].parent) ==> vs[current.value].parent.value in order[..i]);
      assert i < n;
      OrderedMeansFinite(vs, order, vs[current.value].parent, i);
    }
    Prepend(vs, current);
  }

  /** Ids never reused and parents registered first: every lineage is finite,
      whatever was promoted, rolled back or deleted in between. */
  lemma LineagesAreFinite(ops: seq<Op>, id: string)
    requires FreshIds(ops) && ParentsFirst(ops)
    ensures Finite(Run(ops).versions, Some(id))
  {
    RunIsOrdered(ops);
    var vs, order := Run(ops).versions, Order(ops);
    assert order[..|order|] == order;
    if id in vs {
      var i :| 0 <= i < |order| && order[i] == id && (Truthy(vs[id].parent) ==> vs[id].parent.value in order[..i]);
    }
    OrderedMeansFinite(vs, order, Some(id), |order|);
  }

  // ----- when every lineage of every state is finite

  ghost predicate AllFinite(vs: map<string, Version>) {
    forall id :: Finite(vs, Some(id))
  }

  /** The walk from `current` comes to the id, registered or not. */
  ghost predicate ComesTo(vs: map<string, Version>, current: Option<string>, id: string) {
    exists k: nat :: After(vs, current, k) == Some(id)
  }

  /** The step registers an id that the walk from its parent comes to. */
  ghost predicate ClosesCycle(r: Registry, op: Op) {
    op.Registering? && op.id != "" && ComesTo(r.versions, op.parent, op.id)
  }

  /** A walk that never comes to the id is the same whatever is stored there. */
  lemma {:induction false} AvoidingWalk(vs: map<string, Version>, id: string, v: Version, current: Option<string>,
                                        ids: seq<string>)
    requires id != "" ==> !ComesTo(vs, current, id)
    requires Chain(vs, current, ids)
    ensures Chain(vs[id := v], current, ids)
    decreases |ids|
  {
    assert After(vs, current, 0) == current;
    if Live(vs, current) {
      var parent := vs[current.value].parent;
      if id != "" {
        assert current != Some(id);
        forall k: nat
          ensures After(vs, parent, k) != Some(id)
        {
          assert After(vs, current, k + 1) == After(vs, parent, k);
        }
      }
      AvoidingWalk(vs, id, v, parent, ids[1..]);
    }
  }

  /** Conversely, a walk in the new registry that leaves the id out never came
      to it in the old one. */
  lemma {:induction false} LeavesOut(vs: map<string, Version>, id: string, v: Version, current: Option<string>,
                                     ids: seq<string>, k: nat)
    requires id != "" && Chain(vs[id := v], current, ids) && id !in ids
    ensures After(vs, current, k) != Some(id)
    decreases k
  {
    if k > 0 && Live(vs, current) {
      assert ids[0] == current.value != id;
      assert id !in ids[1..];
      LeavesOut(vs, id, v, vs[current.value].parent, ids[1..], k - 1);
    }
  }

  /** Once the walk from the new version is finite, so is every other. */
  lemma {:induction false} OthersStayFinite(vs: map<string, Version>, id: string, v: Version, current: Option<string>,
                                            ids: seq<string>)
    requires Chain(vs, current, ids) && Finite(vs[id := v], Some(id))
    ensures Finite(vs[id := v], current)
    decreases |ids|
  {
    if current != Some(id) {
      if Live(vs, current) {
        OthersStayFinite(vs, id, v, vs[current.value].parent, ids[1..]);
      }
      Prepend(vs[id := v], current);
    }
  }

  lemma AnyIsFinite(vs: map<string, Version>, current: Option<string>)
    requires AllFinite(vs)
    ensures Finite(vs, current)
  {
    if current == None {
      assert Chain(vs, current, []);
    }
  }

  lemma RegisteringStaysFinite(vs: map<string, Version>, id: string, v: Version)
    requires AllFinite(vs) && (id != "" ==> !ComesTo(vs, v.parent, id))
    ensures AllFinite(vs[id := v])
  {
    AnyIsFinite(vs, v.parent);
    var ids :| Chain(vs, v.parent, ids);
    AvoidingWalk(vs, id, v, v.parent, ids);
    Prepend(vs[id := v], Some(id));
    forall x
      ensures Finite(vs[id := v], Some(x))
    {
      AnyIsFinite(vs, Some(x));
      var xs :| Chain(vs, Some(x), xs);
      OthersStayFinite(vs, id, v, Some(x), xs);
    }
  }

  lemma FiniteMeansNoCycle(vs: map<string, Version>, id: string, v: Version)
    requires id != "" && Finite(vs[id := v], Some(id))
    ensures !ComesTo(vs, v.parent, id)
  {
    var ids :| Chain(vs[id := v], Some(id), ids);
    ChainIsDistinct(vs[id := v], Some(id), ids);
    forall k: nat
      ensures After(vs, v.parent, k) != Some(id)
    {
      LeavesOut(vs, id, v, v.parent, ids[1..], k);
    }
  }

  /** Fewer versions with the same parents: walks only get shorter. */
  lemma {:induction false} SameParentsStayFinite(
    vs: map<string, Version>, after: map<string, Version>, current: Option<string>, ids: seq<string>)
    requires forall id :: id in after ==> id in vs && after[id].parent == vs[id].parent
    requires Chain(vs, current, ids)
    ensures Finite(after, current)
    decreases |ids|
  {
    if Live(after, current) {
      SameParentsStayFinite(vs, after, vs[current.value].parent, ids[1..]);
    }
    Prepend(after, current);
  }

  /** A step keeps every lineage finite exactly when it does not register an id
      that the walk from its parent comes to. */
  lemma FiniteStepIff(r: Registry, op: Op)
    requires AllFinite(r.versions)
    ensures AllFinite(Apply(r, op).versions) <==> !ClosesCycle(r, op)
  {
    var vs, after := r.versions, Apply(r, op).versions;
    if op.Registering? {
      var v := Version(Staging, op.parent, None, None);
      if !ClosesCycle(r, op) {
        RegisteringStaysFinite(vs, op.id, v);
      } else if AllFinite(after) {
        FiniteMeansNoCycle(vs, op.id, v);
      }
    } else {
      forall id
        ensures Finite(after, Some(id))
      {
        var ids :| Chain(vs, Some(id), ids);
        SameParentsStayFinite(vs, after, Some(id), ids);
      }
    }
  }

  lemma FiniteRunStep(ops: seq<Op>, n: nat)
    requires n < |ops|
    ensures AllFinite(Run(ops[..n]).versions) ==>
      (AllFinite(Run(ops[..n + 1]).versions) <==> !ClosesCycle(Run(ops[..n]), ops[n]))
  {
    RunStep(ops, n);
    if AllFinite(Run(ops[..n]).versions) {
      FiniteStepIff(Run(ops[..n]), ops[n]);
    }
  }

  /** Every lineage of every state of a run is finite exactly when no step
      registers an id that the walk from its parent comes to. */
  lemma AlwaysFiniteIff(ops: seq<Op>)
    ensures (forall n :: 0 <= n <= |ops| ==> AllFinite(Run(ops[..n]).versions))
      <==> forall n :: 0 <= n < |ops| ==> !ClosesCycle(Run(ops[..n]), ops[n])
  {
    hide AllFinite, ClosesCycle, Apply;
    if forall n :: 0 <= n <= |ops| ==> AllFinite(Run(ops[..n]).versions) {
      forall n | 0 <= n < |ops|
        ensures !ClosesCycle(Run(ops[..n]), ops[n])
      {
        FiniteRunStep(ops, n);
        assert AllFinite(Run(ops[..n]).versions) && AllFinite(Run(ops[..n + 1]).versions);
      }
    }
    if forall n :: 0 <= n < |ops| ==> !ClosesCycle(Run(ops[..n]), ops[n]) {
      EmptyIsFinite(ops);
      for n := 0 to |ops|
        invariant forall m :: 0 <= m <= n ==> AllFinite(Run(ops[..m]).versions)
      {
        FiniteRunStep(ops, n);
      }
    }
  }

  lemma EmptyIsFinite(ops: seq<Op>)
    ensures AllFinite(Run(ops[..0]).versions)
  {
    forall id
      ensures Finite(Run(ops[..0]).versions, Some(id))
    {
      Prepend(Run(ops[..0]).versions, Some(id));
    }
  }

  lemma {:induction false} TwoCycleNeverEnds(vs: map<string, Version>, x: string, y: string, ids: seq<string>)
    requires x != "" && y != "" && x in vs && y in vs
    requires vs[x].parent == Some(y) && vs[y].parent == Some(x)
    ensures !Chain(vs, Some(x), ids)
    decreases |ids|
  {
    if ids != [] {
      TwoCycleNeverEnds(vs, y, x, ids[1..]);
    }
  }

  /** Registering an id again can close a cycle, although parents come first. */
  lemma ReusedIdCycle()
    ensures var ops := [Registering("a", None), Registering("b", Some("a")), Registering("a", Some("b"))];
      ParentsFirst(ops) && !FreshIds(ops) && !Finite(Run(ops).versions, Some("a"))
  {
    var ops := [Registering("a", None), Registering("b", Some("a")), Registering("a", Some("b"))];
    assert ops[..1][0] == ops[0] && ops[..2][0] == ops[0] && ops[..2][1] == ops[1];
    assert RegisteredIn(ops[..1], "a") && RegisteredIn(ops[..2], "a") && RegisteredIn(ops[..2], "b");
    assert Run(ops[..0]) == EMPTY;
    RunStep(ops, 0);
    RunStep(ops, 1);
    RunStep(ops, 2);
    assert ops[..3] == ops;
    forall ids
      ensures !Chain(Run(ops).versions, Some("a"), ids)
    {
      TwoCycleNeverEnds(Run(ops).versions, "a", "b", ids);
    }
  }

  /** So can a parent that is registered after its child. */
  lemma LateParentCycle()
    ensures var ops := [Registering("a", Some("b")), Registering("b", Some("a"))];
      FreshIds(ops) && !ParentsFirst(ops) && !Finite(Run(ops).versions, Some("a"))
  {
    var ops := [Registering("a", Some("b")), Registering("b", Some("a"))];
    assert !RegisteredIn(ops[..0], "b") && !RegisteredIn(ops[..0], "a");
    assert ops[..1] == [ops[0]];
    assert !RegisteredIn(ops[..1], "b");
    assert Run(ops[..0]) == EMPTY;
    RunStep(ops, 0);
    RunStep(ops, 1);
    assert ops[..2] == ops;
    forall ids
      ensures !Chain(Run(ops).versions, Some("a"), ids)
    {
      TwoCycleNeverEnds(Run(ops).versions, "a", "b", ids);
    }
  }

  // ----- the objects

  class ModelVersion {
    const modelId: string
    const parentVersion: Option<string>
    var status: Status
    var deployedBy: Option<string>
    var deployedAt: Option<int>

    constructor (modelId: string, parentVersion: Option<string>)
      ensures this.modelId == modelId && this.parentVersion == parentVersion
      ensures status == Staging && deployedBy == None && deployedAt == None
    {
      this.modelId, this.parentVersion := modelId, parentVersion;
      status, deployedBy, deployedAt := Staging, None, None;
    }

    function Value(): Version
      reads this
    {
      Version(status, parentVersion, deployedBy, deployedAt)
    }
  }

  class ModelRegistry {
    var versions: map<string, ModelVersion>
    var production: Option<string>

    /** Ids are object names, so different ids are different objects. */
    ghost predicate Valid()
      reads this
    {
      forall id :: id in versions ==> versions[id].modelId == id
    }

    ghost function View(): Registry
      reads this, versions.Values
    {
      Registry(map id | id in versions :: versions[id].Value(), production)
    }

    constructor ()
      ensures Valid() && View() == EMPTY
    {
      versions, production := map[], None;
    }

    method RegisterModel(id: string, parent: Option<string>) returns (v: ModelVersion)
      requires Valid()
      modifies this`versions
      ensures Valid() && fresh(v) && id in versions && versions[id] == v
      ensures View() == Register(old(View()), id, parent)
    {
      v := new ModelVersion(id, parent);
      versions := versions[id := v];
      ghost var after := Register(old(View()), id, parent);
      assert View().versions.Keys == after.versions.Keys;
      assert v.Value() == after.versions[id];
    }

    /** Archives or rolls back the current production model, if there is one. */
    method RetireCurrent(status: Status)
      requires Valid()
      modifies versions.Values
      ensures View() == old(View()).(versions := StepDown(old(View()), status))
    {
      if Truthy(production) && production.value in versions {
        var current := versions[production.value];
        current.status := status;
        assert forall id :: id in versions && id != production.value ==> versions[id] != current;
      }
    }

    method PromoteToProduction(id: string, who: Option<string>, at: int) returns (ok: bool)
      requires Valid()
      modifies this`production, versions.Values
      ensures Valid() && versions == old(versions) && ok == (id in versions)
      ensures View() == Promote(old(View()), id, who, at)
    {
      if id !in versions {
        return false;
      }
      var version := versions[id];
      RetireCurrent(Archived);
      version.status := Production;
      version.deployedBy := who;
      version.deployedAt := Some(at);
      production := Some(id);
      return true;
    }

    method RollbackTo(id: string) returns (ok: bool)
      requires Valid()
      modifies this`production, versions.Values
      ensures Valid() && versions == old(versions) && ok == (id in versions)
      ensures View() == Rollback(old(View()), id)
    {
      if id !in versions {
        return false;
      }
      var version := versions[id];
      RetireCurrent(RolledBack);
      version.status := Production;
      production := Some(id);
      return true;
    }

    method DeleteVersion(id: string) returns (ok: bool)
      requires Valid()
      modifies this`versions
      ensures Valid() && ok == (id in old(versions) && production != Some(id))
      ensures View() == Delete(old(View()), id)
      ensures versions == if ok then old(versions) - {id} else old(versions)
    {
      if production == Some(id) {
        return false;
      }
      ok := id in versions;
      versions := versions - {id};
    }

    /** The one version with the production status, where the registry has one:
        nothing is returned exactly when the production id is unset or empty. */
    method GetProductionModel() returns (v: ModelVersion?)
      requires Valid()
      ensures v != null ==> v in versions.Values && production == Some(v.modelId)
      ensures v == null <==> !Live(View().versions, production)
      ensures PointerPresent(View()) ==> (v == null <==> production == None || production == Some(""))
      ensures v != null && PointerMarked(View()) ==> v.status == Production
      ensures v != null && Exclusive(View()) ==>
        forall w :: w in versions.Values && w.status == Production ==> w == v
    {
      if Truthy(production) && production.value in versions {
        v := versions[production.value];
        assert View().versions[production.value] == v.Value();
        forall w | w in versions.Values && w.status == Production && Exclusive(View())
          ensures w == v
        {
          var id :| id in versions && versions[id] == w;
          assert View().versions[id].status == Production;
        }
        return v;
      }
      return null;
    }

    /** Follows parent links; without a finite lineage the source does not return. */
    method GetVersionHistory(id: string) returns (history: seq<ModelVersion>)
      requires Valid() && Finite(View().versions, Some(id))
      ensures Chain(View().versions, Some(id), Ids(history))
      ensures forall i :: 0 <= i < |history| ==> history[i] in versions.Values
      ensures forall i, j :: 0 <= i < j < |history| ==> history[i].modelId != history[j].modelId
      ensures |history| <= |versions|
    {
      ghost var vs := View().versions;
      ghost var whole :| Chain(vs, Some(id), whole);
      ghost var left := whole;
      history := [];
      var current := Some(id);
      while Truthy(current)
        invariant Chain(vs, current, left) && whole == Ids(history) + left
        invariant forall i :: 0 <= i < |history| ==> history[i] in versions.Values
        decreases |left|, Truthy(current)
      {
        if current.value in versions {
          var version := versions[current.value];
          history := history + [version];
          current := version.parentVersion;
          left := left[1..];
        } else {
          break;
        }
      }
      assert left == [] && whole == Ids(history);
      assert vs.Keys == versions.Keys && |vs.Keys| == |vs| && |versions.Keys| == |versions|;
      ChainIsDistinct(vs, Some(id), whole);
      ChainIsShort(vs, Some(id), whole);
      assert forall i :: 0 <= i < |history| ==> whole[i] == history[i].modelId;
    }
  }

  function Ids(history: seq<ModelVersion>): seq<string> {
    seq(|history|, i requires 0 <= i < |history| => history[i].modelId)
  }
}
