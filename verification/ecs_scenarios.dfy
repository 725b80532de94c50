/**
 * The engine's scenarios from tests/ecs.cpp, on an engine registering the
 * three one-int structs A, B and C (columns 0, 1 and 2, default 0).
 */
module EcsScenarios {
  import opened Wrappers
  import opened NeatEcs

  /** Removes entities 1, 3 and 4 of six live ones. */
  method RemoveOneThreeFour(ecs: Engine<int>) returns (removed: seq<bool>)
    requires ecs.Valid() && ecs.live == [true, true, true, true, true, true]
    modifies ecs, ecs.cols
    ensures ecs.Valid() && ecs.live == [true, false, true, false, false, true]
    ensures removed == [true, true, true]
  {
    var r1 := ecs.RemoveEntity(1);
    assert ecs.live == [true, false, true, true, true, true];
    var r3 := ecs.RemoveEntity(3);
    assert ecs.live == [true, false, true, false, true, true];
    var r4 := ecs.RemoveEntity(4);
    removed := [r1, r3, r4];
  }

  /** Six entities, three of them removed: removal succeeds, and exactly
      the removed ones stop existing. */
  method DeletedEntityNoLongerExists() returns (removed: seq<bool>, alive: seq<bool>, gone: seq<bool>)
    ensures removed == [true, true, true]
    ensures alive == [true, true, true]
    ensures gone == [false, false, false]
  {
    var ecs, ids := NewLive(6);
    var e1, e2, e3, e4, e5, e6 := ids[0], ids[1], ids[2], ids[3], ids[4], ids[5];
    removed := RemoveOneThreeFour(ecs);
    alive := [ecs.Exists(e1), ecs.Exists(e3), ecs.Exists(e6)];
    gone := [ecs.Exists(e2), ecs.Exists(e4), ecs.Exists(e5)];
  }

  /** A second removal of the same entity fails. */
  method DeletedEntityCantBeDeletedAgain() returns (first: bool, existsAfterFirst: bool, second: bool, existsAfterSecond: bool)
    ensures first && !existsAfterFirst
    ensures !second && !existsAfterSecond
  {
    var ecs := new Engine<int>([0, 0, 0]);
    var e := ecs.Create();
    first := ecs.RemoveEntity(e);
    existsAfterFirst := ecs.Exists(e);
    second := ecs.RemoveEntity(e);
    existsAfterSecond := ecs.Exists(e);
  }

  /** `get` hands back the slot `add` filled, and a write through it is
      what the next `get` sees. */
  method GetComponentReturnsSame() returns (before: int, after: int)
    ensures before == 100 && after == 50
  {
    var ecs := new Engine<int>([0, 0, 0]);
    var e := ecs.Create();
    var _ := ecs.AddComponent(0, e, 100);
    var p := ecs.GetComponent(0, e);
    before := ecs.cols[0].values[p.value];
    ecs.cols[0].Store(p.value, 50);
    var q := ecs.GetComponent(0, e);
    after := ecs.cols[0].values[q.value];
  }

  /** A fresh engine after `n` calls of `create`: the ids handed out are
      0 to n - 1, every one is live and no component is stored. */
  method NewLive(n: nat) returns (ecs: Engine<int>, ids: seq<nat>)
    ensures ecs.Valid() && |ecs.cols| == 3 && ecs.live == seq(n, _ => true) && ecs.free == []
    ensures ids == seq(n, i => i)
    ensures ecs.cols[0].tags == [] && ecs.cols[0].values == []
    ensures fresh(ecs) && forall k :: 0 <= k < |ecs.cols| ==> fresh(ecs.cols[k])
  {
    ecs := new Engine<int>([0, 0, 0]);
    ids := [];
    while |ids| < n
      invariant |ids| <= n && ecs.Valid() && |ecs.cols| == 3
      invariant ecs.live == seq(|ids|, _ => true) && ecs.free == []
      invariant ids == seq(|ids|, i => i)
      invariant ecs.cols[0].tags == [] && ecs.cols[0].values == []
      invariant forall k :: 0 <= k < |ecs.cols| ==> fresh(ecs.cols[k])
    {
      var e := ecs.Create();
      ids := ids + [e];
    }
  }

  /** Gives entities 0, 2 and 4 of five an A. */
  method AddEvens(ecs: Engine<int>)
    requires ecs.Valid() && |ecs.cols| == 3 && ecs.live == [true, true, true, true, true]
    requires ecs.cols[0].tags == []
    modifies ecs.cols[0]
    ensures ecs.Valid() && |ecs.cols| == 3 && ecs.live == [true, true, true, true, true]
    ensures ecs.cols[0].tags == [true, false, true, false, true]
  {
    var _ := ecs.AddComponent(0, 0, 0);
    assert ecs.cols[0].tags == [true];
    var _ := ecs.AddComponent(0, 2, 0);
    assert ecs.cols[0].tags == [true, false, true];
    var _ := ecs.AddComponent(0, 4, 0);
  }

  /** The many-entity `get` answers slot for slot as the single one. */
  method GetMultipleComponents() returns (singles: seq<Option<nat>>, many: seq<Option<nat>>)
    ensures |many| == 3 && many == singles
    ensures singles == [Some(0), Some(2), Some(4)]
  {
    var ecs, _ := NewLive(5);
    AddEvens(ecs);
    singles := [ecs.GetComponent(0, 0), ecs.GetComponent(0, 2), ecs.GetComponent(0, 4)];
    many := ecs.GetMany(0, [0, 2, 4]);
  }

  /** A system on A that adds `d` to the value it is pointed at. */
  function AddTo(d: int): seq<int> -> seq<int> {
    vs => if vs == [] then vs else [vs[0] + d] + vs[1..]
  }

  /** The one-entity engine of the system scenario: entity 0 is live and
      has an A, and nothing else is stored. */
  ghost predicate OneA(ecs: Engine<int>)
    reads ecs, ecs.cols
  {
    && ecs.Valid() && |ecs.cols| == 3 && ecs.live == [true]
    && ecs.cols[0].tags == [true] && |ecs.cols[0].values| == 1
  }

  /** The query for A lists entity 0 alone. */
  lemma OnlyEntityZero(ecs: Engine<int>)
    requires OneA(ecs)
    ensures ecs.Query([0], |ecs.live|) == [0]
  {
    assert ecs.Matches([0], 0);
  }

  /** One run of a system adding `d` to A, for entity 0 alone. */
  lemma RunAddOnce(vals: seq<seq<int>>, sys: (nat, seq<int>) -> seq<int>, d: int)
    requires |vals| == 3 && |vals[0]| == 1 && KeepsArity(sys)
    requires forall e: nat, vs: seq<int> :: sys(e, vs) == AddTo(d)(vs)
    ensures |Run(vals, [0], [0], sys).0| == 3 && |Run(vals, [0], [0], sys).0[0]| == 1
    ensures Run(vals, [0], [0], sys).0[0][0] == vals[0][0] + d
  {
    var args := Args(vals, [0], 0);
    assert args == [vals[0][0]];
    assert sys(0, args) == [vals[0][0] + d];
    assert Run(vals, [0], [0], sys).0 == WriteRow(vals, [0], 0, [vals[0][0] + d]);
  }

  /** What one `execute` of a system adding `d` to A does there. */
  lemma AddEffect(ecs: Engine<int>, sys: (nat, seq<int>) -> seq<int>, d: int)
    requires OneA(ecs) && KeepsArity(sys)
    requires forall e: nat, vs: seq<int> :: sys(e, vs) == AddTo(d)(vs)
    ensures |ecs.Effect([0], sys).0| == 3 && |ecs.Effect([0], sys).0[0]| == 1
    ensures ecs.Effect([0], sys).0[0][0] == ecs.cols[0].values[0] + d
  {
    OnlyEntityZero(ecs);
    RunAddOnce(ecs.Values(), sys, d);
  }

  /** `execute` of a system taking a pointer to A. */
  method ExecuteAdd(ecs: Engine<int>, d: int)
    requires OneA(ecs)
    modifies ecs.cols
    ensures OneA(ecs)
    ensures ecs.cols[0].values[0] == old(ecs.cols[0].values[0]) + d
  {
    var system := AddTo(d);
    var sys := Ignoring(system);
    assert KeepsArity(sys);
    AddEffect(ecs, sys, d);
    var _ := ecs.ExecuteComponents([0], system);
  }

  /** `execute` of a system taking the entity id and a pointer to A. */
  method ExecuteAddWithId(ecs: Engine<int>, d: int)
    requires OneA(ecs)
    modifies ecs.cols
    ensures OneA(ecs)
    ensures ecs.cols[0].values[0] == old(ecs.cols[0].values[0]) + d
  {
    var sys := (e: nat, vs: seq<int>) => AddTo(d)(vs);
    forall e: nat, vs: seq<int> ensures |sys(e, vs)| == |vs| {
      assert sys(e, vs) == AddTo(d)(vs);
    }
    AddEffect(ecs, sys, d);
    var _ := ecs.Execute([0], sys);
  }

  /** A fresh engine with one entity that has an A of value 0. */
  method NewOneA() returns (ecs: Engine<int>)
    ensures OneA(ecs) && ecs.cols[0].values[0] == 0
    ensures fresh(ecs) && forall k :: 0 <= k < |ecs.cols| ==> fresh(ecs.cols[k])
  {
    ecs := new Engine<int>([0, 0, 0]);
    var e := ecs.Create();
    var _ := ecs.AddComponent(0, e, 0);
  }

  /** `components.first<A>()` read through its pointer. */
  method FirstA(ecs: Engine<int>) returns (a: int)
    requires OneA(ecs)
    ensures a == ecs.cols[0].values[0]
  {
    var _, p := ecs.FirstComponent(0);
    assert ecs.cols[0].Has(0);
    a := ecs.cols[0].values[p.value];
  }

  /** Four systems adding 1, 2, 4 and 8 leave 15 in the entity's A; the
      overloads that also take the engine are run as the ones without. */
  method SystemTypes() returns (a: int)
    ensures a == 15
  {
    var ecs := NewOneA();
    ExecuteAdd(ecs, 1);
    ExecuteAddWithId(ecs, 2);
    ExecuteAdd(ecs, 4);
    ExecuteAddWithId(ecs, 8);
    a := FirstA(ecs);
  }
}
