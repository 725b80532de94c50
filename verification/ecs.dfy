/**
 * The entity-component engine of neat_ecs.hpp.
 *
 * Entity ids are natural numbers.  Each registered component type has a
 * column (`componentlist<T>`): a presence bitmap and a parallel vector of
 * values, both indexed by entity id.  The engine keeps a liveness vector,
 * a first-in first-out queue of free ids and one column per registered
 * type.  Component types are named by the position of their column among
 * the registered types (EcsTyping.RegisteredIndexIsPosition shows that
 * this is what `get_index` computes for a list of unique types), all
 * columns hold values of one type `V`, and a pointer to a component is
 * the id of the entity whose slot it points at.
 */
module NeatEcs {
  import opened Wrappers

  /** `invalid_entity`: `SIZE_MAX` of a 64-bit `size_t`. */
  const InvalidEntity: nat := 0xFFFF_FFFF_FFFF_FFFF

  /** `std::vector::resize(n, fill)`: truncate, or extend with `fill`. */
  function Resize<T>(s: seq<T>, n: nat, fill: T): (r: seq<T>)
    ensures |r| == n
    ensures forall i :: 0 <= i < n && i < |s| ==> r[i] == s[i]
    ensures forall i :: |s| <= i < n ==> r[i] == fill
  {
    if n <= |s| then s[..n] else s + seq(n - |s|, _ => fill)
  }

  /** `s` with slot `e` set to `x`, when there is such a slot. */
  function ClearAt<T>(s: seq<T>, e: nat, x: T): seq<T> {
    if e < |s| then s[e := x] else s
  }

  /** `componentlist<T>`: the column of one component type. `dflt` is the
      value of a default-constructed component, which fills every slot
      without a tag. */
  class Column<V> {
    var tags: seq<bool>
    var values: seq<V>
    const dflt: V

    ghost predicate Valid()
      reads this
    {
      && |tags| == |values|
      && forall e :: 0 <= e < |tags| && !tags[e] ==> values[e] == dflt
    }

    constructor (dflt: V)
      ensures Valid() && this.dflt == dflt
      ensures tags == [] && values == []
    {
      this.dflt := dflt;
      tags, values := [], [];
    }

    /** `has(entity)`: bounds-checked tag lookup. */
    function Has(e: nat): bool
      reads this
    {
      e < |tags| && tags[e]
    }

    /** `get(entity)`: a pointer to the entity's slot, null without a tag. */
    function Get(e: nat): (p: Option<nat>)
      reads this
      requires Valid()
      ensures p.None? <==> !Has(e)
      ensures p.Some? ==> p.value == e && e < |values|
    {
      if !Has(e) then None else Some(e)
    }

    /** `add(entity, args...)`: grows both vectors to `e + 1` when needed,
        tags the slot and stores the new value. */
    method Add(e: nat, v: V) returns (p: nat)
      requires Valid()
      modifies this
      ensures Valid()
      ensures p == e && Has(e) && values[e] == v
      ensures tags == (if e < old(|tags|) then old(tags) else Resize(old(tags), e + 1, false))[e := true]
      ensures values == (if e < old(|values|) then old(values) else Resize(old(values), e + 1, dflt))[e := v]
    {
      if e >= |tags| {
        tags := Resize(tags, e + 1, false);
        values := Resize(values, e + 1, dflt);
      }
      tags := tags[e := true];
      values := values[e := v];
      return e;
    }

    /** `remove(entity)`: clears the tag and puts back the default value. */
    method Remove(e: nat) returns (r: bool)
      requires Valid()
      modifies this
      ensures Valid()
      ensures r == old(Has(e))
      ensures forall d :: Has(d) <==> d != e && old(Has(d))
      ensures !r ==> tags == old(tags) && values == old(values)
      ensures tags == ClearAt(old(tags), e, false)
      ensures values == ClearAt(old(values), e, dflt)
    {
      if !Has(e) {
        return false;
      }
      tags := tags[e := false];
      values := values[e := dflt];
      return true;
    }

    /** `first()`: the lowest tagged entity and its slot, or
        `(invalid_entity, nullptr)` when no slot is tagged. */
    method First() returns (e: nat, p: Option<nat>)
      requires Valid()
      ensures p.Some? ==> p.value == e && Has(e) && forall i :: 0 <= i < e ==> !Has(i)
      ensures p.None? ==> e == InvalidEntity && forall i :: 0 <= i < |tags| ==> !Has(i)
    {
      var i := 0;
      while i < |tags|
        invariant 0 <= i <= |tags|
        invariant forall j :: 0 <= j < i ==> !Has(j)
      {
        if tags[i] {
          return i, Some(i);
        }
        i := i + 1;
      }
      return InvalidEntity, None;
    }

    /** `allocate(new_count)`: refuses to shrink; otherwise resizes both
        vectors to `n`, new slots untagged. */
    method Allocate(n: nat) returns (r: bool)
      requires Valid()
      modifies this
      ensures Valid()
      ensures r == (n >= old(|tags|))
      ensures r ==> tags == Resize(old(tags), n, false) && values == Resize(old(values), n, dflt)
      ensures !r ==> tags == old(tags) && values == old(values)
    {
      if n < |tags| {
        return false;
      }
      tags := Resize(tags, n, false);
      values := Resize(values, n, dflt);
      return true;
    }

    /** A write through the pointer `get(entity)` returned. */
    method Store(e: nat, v: V)
      requires Valid() && Has(e)
      modifies this
      ensures Valid()
      ensures tags == old(tags) && values == old(values)[e := v]
    {
      values := values[e := v];
    }
  }

  /** One tuple of `iterate`: an entity and a pointer per requested type. */
  datatype Row = Row(entity: nat, ptrs: seq<Option<nat>>)

  /** One invocation of a system: the entity it ran for and the component
      values it was handed. */
  datatype Call<V> = Call(entity: nat, args: seq<V>)

  /** A system that takes no entity id, seen as one that ignores it. */
  function Ignoring<V>(system: seq<V> -> seq<V>): (nat, seq<V>) -> seq<V> {
    (e, vs) => system(vs)
  }

  /** A system hands back one value per pointer it was given. */
  ghost predicate KeepsArity<V(!new)>(system: (nat, seq<V>) -> seq<V>) {
    forall e, vs :: |system(e, vs)| == |vs|
  }

  /** No column requested twice. */
  predicate Distinct(req: seq<nat>) {
    forall i, j :: 0 <= i < |req| && 0 <= j < |req| && i != j ==> req[i] != req[j]
  }

  /* The effect of running a system, stated on a snapshot of the storage:
     `vals[k]` is the values vector of column `k`. */

  /** Every requested column has a slot for entity `e`. */
  predicate Slots<V>(vals: seq<seq<V>>, req: seq<nat>, e: nat) {
    forall j :: 0 <= j < |req| ==> req[j] < |vals| && e < |vals[req[j]]|
  }

  /** Every requested column has a slot for every listed entity. */
  predicate Fits<V>(vals: seq<seq<V>>, req: seq<nat>, ids: seq<nat>) {
    forall m :: 0 <= m < |ids| ==> Slots(vals, req, ids[m])
  }

  /** The values the pointers of one call point at. */
  function Args<V>(vals: seq<seq<V>>, req: seq<nat>, e: nat): (args: seq<V>)
    requires Slots(vals, req, e)
    ensures |args| == |req|
    ensures forall j :: 0 <= j < |req| ==> args[j] == vals[req[j]][e]
  {
    seq(|req|, j requires 0 <= j < |req| && Slots(vals, req, e) => vals[req[j]][e])
  }

  /** The writes one call makes: `out[j]` through the pointer into column
      `req[j]`, in order. */
  function WriteRow<V>(vals: seq<seq<V>>, req: seq<nat>, e: nat, out: seq<V>): (r: seq<seq<V>>)
    requires Slots(vals, req, e) && |out| == |req|
    ensures |r| == |vals| && forall k :: 0 <= k < |vals| ==> |r[k]| == |vals[k]|
    decreases |req|
  {
    if req == [] then vals
    else
      var n := |req| - 1;
      var prev := WriteRow(vals, req[..n], e, out[..n]);
      prev[req[n] := prev[req[n]][e := out[n]]]
  }

  /** Each requested slot of the entity ends up holding what was written
      through its pointer. */
  lemma {:induction false} WriteRowAt<V>(vals: seq<seq<V>>, req: seq<nat>, e: nat, out: seq<V>, j: nat)
    requires Slots(vals, req, e) && |out| == |req| && Distinct(req) && j < |req|
    ensures WriteRow(vals, req, e, out)[req[j]][e] == out[j]
    decreases |req|
  {
    var n := |req| - 1;
    if j < n {
      WriteRowAt(vals, req[..n], e, out[..n], j);
    }
  }

  /** Nothing outside the requested slots of the entity changes. */
  lemma {:induction false} WriteRowFrame<V>(vals: seq<seq<V>>, req: seq<nat>, e: nat, out: seq<V>, k: nat, d: nat)
    requires Slots(vals, req, e) && |out| == |req|
    requires k < |vals| && d < |vals[k]| && (k !in req || d != e)
    ensures WriteRow(vals, req, e, out)[k][d] == vals[k][d]
    decreases |req|
  {
    if req != [] {
      var n := |req| - 1;
      assert k !in req[..n] || d != e;
      WriteRowFrame(vals, req[..n], e, out[..n], k, d);
    }
  }

  /** The loop of `systems.execute`: the system runs for each listed entity
      in turn, is handed the values its pointers point at and writes back
      what it returns. The result is the storage afterwards and the calls
      made. */
  function Run<V(!new)>(vals: seq<seq<V>>, req: seq<nat>, ids: seq<nat>, system: (nat, seq<V>) -> seq<V>)
    : (r: (seq<seq<V>>, seq<Call<V>>))
    requires KeepsArity(system) && Fits(vals, req, ids)
    ensures |r.0| == |vals| && forall k :: 0 <= k < |vals| ==> |r.0[k]| == |vals[k]|
    ensures |r.1| == |ids| && forall m :: 0 <= m < |ids| ==> |r.1[m].args| == |req|
    decreases |ids|
  {
    if ids == [] then (vals, [])
    else
      var n := |ids| - 1;
      var prev := Run(vals, req, ids[..n], system);
      var e := ids[n];
      var args := Args(prev.0, req, e);
      (WriteRow(prev.0, req, e, system(e, args)), prev.1 + [Call(e, args)])
  }

  /** Slots of unrequested columns and of unlisted entities are untouched. */
  lemma {:induction false} RunFrame<V(!new)>(vals: seq<seq<V>>, req: seq<nat>, ids: seq<nat>,
                                             system: (nat, seq<V>) -> seq<V>, k: nat, d: nat)
    requires KeepsArity(system) && Fits(vals, req, ids)
    requires k < |vals| && d < |vals[k]| && (k !in req || d !in ids)
    ensures Run(vals, req, ids, system).0[k][d] == vals[k][d]
    decreases |ids|
  {
    if ids != [] {
      var n := |ids| - 1;
      var prev := Run(vals, req, ids[..n], system);
      assert k !in req || d !in ids[..n];
      RunFrame(vals, req, ids[..n], system, k, d);
      var e := ids[n];
      WriteRowFrame(prev.0, req, e, system(e, Args(prev.0, req, e)), k, d);
    }
  }

  /** The `m`-th call is for the `m`-th listed entity and is handed the
      values its components had before the loop started, since every entity
      is listed once. */
  lemma {:induction false} RunCalls<V(!new)>(vals: seq<seq<V>>, req: seq<nat>, ids: seq<nat>,
                                             system: (nat, seq<V>) -> seq<V>, m: nat)
    requires KeepsArity(system) && Fits(vals, req, ids)
    requires forall a, b :: 0 <= a < b < |ids| ==> ids[a] < ids[b]
    requires m < |ids|
    ensures Run(vals, req, ids, system).1[m] == Call(ids[m], Args(vals, req, ids[m]))
    decreases |ids|
  {
    var n := |ids| - 1;
    var prev := Run(vals, req, ids[..n], system);
    if m < n {
      RunCalls(vals, req, ids[..n], system, m);
    } else {
      var e := ids[n];
      forall j | 0 <= j < |req| ensures prev.0[req[j]][e] == vals[req[j]][e] {
        assert e !in ids[..n];
        RunFrame(vals, req, ids[..n], system, req[j], e);
      }
      assert Args(prev.0, req, e) == Args(vals, req, e);
    }
  }

  /** After the loop, each requested slot of each listed entity holds what
      the system returned for it, provided no type is requested twice. */
  lemma {:induction false} RunWrites<V(!new)>(vals: seq<seq<V>>, req: seq<nat>, ids: seq<nat>,
                                              system: (nat, seq<V>) -> seq<V>, m: nat, j: nat)
    requires KeepsArity(system) && Fits(vals, req, ids) && Distinct(req)
    requires forall a, b :: 0 <= a < b < |ids| ==> ids[a] < ids[b]
    requires m < |ids| && j < |req|
    ensures Run(vals, req, ids, system).0[req[j]][ids[m]]
            == system(ids[m], Run(vals, req, ids, system).1[m].args)[j]
    decreases |ids|
  {
    var n := |ids| - 1;
    var prev := Run(vals, req, ids[..n], system);
    var e := ids[n];
    var args := Args(prev.0, req, e);
    if m < n {
      RunWrites(vals, req, ids[..n], system, m, j);
      WriteRowFrame(prev.0, req, e, system(e, args), req[j], ids[m]);
    } else {
      WriteRowAt(prev.0, req, e, system(e, args), j);
    }
  }

  /** `engine<RegisteredComponents...>` together with its `entities`,
      `components` and `systems` parts. */
  class Engine<V(!new)> {
    const cols: seq<Column<V>>
    var live: seq<bool>
    var free: seq<nat>

    ghost predicate ColumnsValid()
      reads this, cols
    {
      && (forall i, j :: 0 <= i < |cols| && 0 <= j < |cols| && i != j ==> cols[i] != cols[j])
      && (forall k :: 0 <= k < |cols| ==> cols[k].Valid() && |cols[k].tags| == |cols[k].values|)
    }

    /** A tag in any column belongs to a live entity. */
    ghost predicate TaggedAreLive()
      reads this, cols
    {
      forall k, e: nat :: 0 <= k < |cols| && cols[k].Has(e) ==> Exists(e)
    }

    /** The free queue holds every dead id, once each, and nothing else. */
    ghost predicate FreeAreDead()
      reads this
    {
      && (forall i :: 0 <= i < |free| ==> free[i] < |live| && !live[free[i]])
      && (forall e :: 0 <= e < |live| && !live[e] ==> e in free)
      && (forall i, j :: 0 <= i < j < |free| ==> free[i] != free[j])
    }

    ghost predicate Valid()
      reads this, cols
    {
      ColumnsValid() && TaggedAreLive() && FreeAreDead()
    }

    /** `engine()`: one empty column per registered type, `defaults[k]`
        being the default value of the `k`-th type; no entities. */
    constructor (defaults: seq<V>)
      ensures Valid()
      ensures |cols| == |defaults|
      ensures forall k :: 0 <= k < |cols| ==> fresh(cols[k]) && cols[k].dflt == defaults[k] && cols[k].tags == []
      ensures live == [] && free == []
    {
      var cs: seq<Column<V>> := [];
      while |cs| < |defaults|
        invariant |cs| <= |defaults|
        invariant forall k :: 0 <= k < |cs| ==> fresh(cs[k]) && cs[k].Valid() && cs[k].dflt == defaults[k] && cs[k].tags == []
        invariant forall i, j :: 0 <= i < |cs| && 0 <= j < |cs| && i != j ==> cs[i] != cs[j]
      {
        var c := new Column(defaults[|cs|]);
        cs := cs + [c];
      }
      cols := cs;
      live, free := [], [];
    }

    predicate Registered(req: seq<nat>) {
      forall j :: 0 <= j < |req| ==> req[j] < |cols|
    }

    /** `entities.exists(entity)`: bounds-checked liveness. */
    function Exists(e: nat): (r: bool)
      reads this
      ensures r ==> e < |live|
      ensures e < |live| ==> (r <==> live[e])
    {
      e < |live| && live[e]
    }

    /** Under the invariant an id below the size is live exactly when the
        free queue does not hold it. */
    lemma ExistsIffNotFree(e: nat)
      requires Valid() && e < |live|
      ensures Exists(e) <==> e !in free
    {
      if e in free {
        var i :| 0 <= i < |free| && free[i] == e;
        assert !live[free[i]];
      }
    }

    /** The query condition: live, and tagged in every requested column. */
    ghost predicate Matches(req: seq<nat>, e: nat)
      reads this, cols
      requires Registered(req)
    {
      Exists(e) && forall j :: 0 <= j < |req| ==> cols[req[j]].Has(e)
    }

    /** The ids below `n` that match, in ascending order. */
    ghost function Query(req: seq<nat>, n: nat): seq<nat>
      reads this, cols
      requires Registered(req)
    {
      if n == 0 then []
      else Query(req, n - 1) + (if Matches(req, n - 1) then [n - 1] else [])
    }

    /** Everything the query lists is below the bound and matches. */
    lemma {:induction false} QuerySound(req: seq<nat>, n: nat, i: nat)
      requires Registered(req) && i < |Query(req, n)|
      ensures Query(req, n)[i] < n && Matches(req, Query(req, n)[i])
    {
      if i < |Query(req, n - 1)| {
        QuerySound(req, n - 1, i);
      }
    }

    /** Every matching id below the bound is listed. */
    lemma {:induction false} QueryComplete(req: seq<nat>, n: nat, e: nat)
      requires Registered(req) && e < n && Matches(req, e)
      ensures e in Query(req, n)
    {
      if e < n - 1 {
        QueryComplete(req, n - 1, e);
      }
    }

    /** The query lists ids in strictly ascending order. */
    lemma {:induction false} QueryAscending(req: seq<nat>, n: nat, i: nat, j: nat)
      requires Registered(req) && i < j < |Query(req, n)|
      ensures Query(req, n)[i] < Query(req, n)[j]
    {
      var prev := Query(req, n - 1);
      if j < |prev| {
        QueryAscending(req, n - 1, i, j);
      } else {
        QuerySound(req, n - 1, i);
      }
    }

    /** `entities.create()`: the oldest freed id when there is one, else a
        new id one past the end. */
    method Create() returns (e: nat)
      requires Valid()
      modifies this
      ensures Valid()
      ensures !old(Exists(e)) && Exists(e)
      ensures old(free) != [] ==> e == old(free[0]) && free == old(free[1..]) && live == old(live)[e := true]
      ensures old(free) == [] ==> e == old(|live|) && free == [] && live == old(live) + [true]
    {
      if free != [] {
        e := free[0];
        var rest := free[1..];
        assert forall i :: 0 <= i < |rest| ==> rest[i] == free[i + 1] && rest[i] != e;
        assert forall d :: 0 <= d < |live| && !live[d] && d != e ==> d in rest by {
          forall d | 0 <= d < |live| && !live[d] && d != e ensures d in rest {
            var i :| 0 <= i < |free| && free[i] == d;
            assert rest[i - 1] == d;
          }
        }
        free := rest;
        live := live[e := true];
        assert forall d: nat :: old(Exists(d)) ==> Exists(d);
        return;
      }
      assert forall d :: 0 <= d < |live| ==> live[d];
      e := |live|;
      live := live + [true];
      assert forall d: nat :: old(Exists(d)) ==> Exists(d);
    }

    /** The fold of `entities.remove` over every column: each column's
        `remove(entity)`. */
    method RemoveFromColumns(e: nat)
      requires Valid()
      modifies cols
      ensures Valid()
      ensures forall k, d: nat :: 0 <= k < |cols| ==> (cols[k].Has(d) <==> d != e && old(cols[k].Has(d)))
      ensures forall k :: 0 <= k < |cols| ==>
                cols[k].tags == ClearAt(old(cols[k].tags), e, false) &&
                cols[k].values == ClearAt(old(cols[k].values), e, cols[k].dflt)
    {
      var i := 0;
      while i < |cols|
        invariant 0 <= i <= |cols|
        invariant ColumnsValid() && TaggedAreLive()
        invariant forall k, d: nat :: 0 <= k < i ==> (cols[k].Has(d) <==> d != e && old(cols[k].Has(d)))
        invariant forall k :: 0 <= k < i ==>
                    cols[k].tags == ClearAt(old(cols[k].tags), e, false) &&
                    cols[k].values == ClearAt(old(cols[k].values), e, cols[k].dflt)
        invariant forall k :: i <= k < |cols| ==> cols[k].tags == old(cols[k].tags) && cols[k].values == old(cols[k].values)
      {
        var removed := cols[i].Remove(e);
        i := i + 1;
      }
    }

    /** `entities.remove(entity)`: for a live entity, removes its component
        from every column, marks it dead and queues its id for reuse. */
    method RemoveEntity(e: nat) returns (r: bool)
      requires Valid()
      modifies this, cols
      ensures Valid()
      ensures r == old(Exists(e)) && !Exists(e)
      ensures !r ==> live == old(live) && free == old(free) &&
                     forall k :: 0 <= k < |cols| ==> cols[k].tags == old(cols[k].tags) && cols[k].values == old(cols[k].values)
      ensures r ==> live == old(live)[e := false] && free == old(free) + [e]
      ensures r ==> forall k :: 0 <= k < |cols| ==>
                      cols[k].tags == ClearAt(old(cols[k].tags), e, false) &&
                      cols[k].values == ClearAt(old(cols[k].values), e, cols[k].dflt)
    {
      if !Exists(e) {
        return false;
      }
      RemoveFromColumns(e);
      assert forall i :: 0 <= i < |free| ==> free[i] != e;
      live := live[e := false];
      free := free + [e];
      assert forall d: nat :: d != e && old(Exists(d)) ==> Exists(d);
      return true;
    }

    /** `entities.last()`: the largest live id, 0 when none is live. */
    method Last() returns (r: nat)
      ensures (forall e :: 0 <= e < |live| ==> !live[e]) ==> r == 0
      ensures (exists e :: 0 <= e < |live| && live[e]) ==>
                Exists(r) && forall e :: r < e < |live| ==> !live[e]
    {
      r := 0;
      var i := 0;
      while i < |live|
        invariant 0 <= i <= |live|
        invariant (forall e :: 0 <= e < i ==> !live[e]) ==> r == 0
        invariant (exists e :: 0 <= e < i && live[e]) ==> r < i && live[r] && forall e :: r < e < i ==> !live[e]
      {
        if live[i] {
          r := i;
        }
        i := i + 1;
      }
    }

    /** `entities.all()`: the live ids, ascending. */
    method All() returns (ids: seq<nat>)
      ensures ids == Query([], |live|)
      ensures forall e: nat :: e in ids <==> Exists(e)
      ensures forall i, j :: 0 <= i < j < |ids| ==> ids[i] < ids[j]
    {
      ids := [];
      var i := 0;
      while i < |live|
        invariant 0 <= i <= |live|
        invariant ids == Query([], i)
      {
        if live[i] {
          ids := ids + [i];
        }
        i := i + 1;
      }
      forall e: nat ensures e in ids <==> Exists(e) {
        if e in ids {
          var m :| 0 <= m < |ids| && ids[m] == e;
          QuerySound([], |live|, m);
        }
        if Exists(e) {
          QueryComplete([], |live|, e);
        }
      }
      forall m, j | 0 <= m < j < |ids| ensures ids[m] < ids[j] {
        QueryAscending([], |live|, m, j);
      }
    }

    /** `_get_entities_who_have_components<Requested...>()`: the live ids
        tagged in every requested column, ascending. */
    method EntitiesWith(req: seq<nat>) returns (ids: seq<nat>)
      requires Registered(req)
      ensures ids == Query(req, |live|)
    {
      ids := [];
      var e := 0;
      while e < |live|
        invariant 0 <= e <= |live|
        invariant ids == Query(req, e)
      {
        if live[e] {
          var anyNot := false;
          var j := 0;
          while j < |req|
            invariant 0 <= j <= |req|
            invariant anyNot <==> exists m :: 0 <= m < j && !cols[req[m]].Has(e)
          {
            if !cols[req[j]].Has(e) {
              anyNot := true;
            }
            j := j + 1;
          }
          if !anyNot {
            ids := ids + [e];
          }
        }
        e := e + 1;
      }
    }

    /** `iterate<Requested...>()`: each matching entity with a pointer into
        every requested column. */
    method Iterate(req: seq<nat>) returns (rows: seq<Row>)
      requires ColumnsValid() && Registered(req)
      ensures |rows| == |Query(req, |live|)|
      ensures forall i :: 0 <= i < |rows| ==> rows[i].entity == Query(req, |live|)[i]
      ensures forall i :: 0 <= i < |rows| ==> |rows[i].ptrs| == |req|
      ensures forall i, j :: 0 <= i < |rows| && 0 <= j < |req| ==> rows[i].ptrs[j] == Some(rows[i].entity)
    {
      var ids := EntitiesWith(req);
      rows := [];
      var i := 0;
      while i < |ids|
        invariant 0 <= i <= |ids| && |rows| == i
        invariant forall m :: 0 <= m < i ==> rows[m].entity == ids[m]
        invariant forall m :: 0 <= m < i ==> |rows[m].ptrs| == |req|
        invariant forall m, j :: 0 <= m < i && 0 <= j < |req| ==> rows[m].ptrs[j] == Some(rows[m].entity)
      {
        QuerySound(req, |live|, i);
        var ptrs := Pointers(req, ids[i]);
        rows := rows + [Row(ids[i], ptrs)];
        i := i + 1;
      }
    }

    /** `iterate_components<Requested...>()`: `iterate` without the ids. */
    method IterateComponents(req: seq<nat>) returns (tuples: seq<seq<Option<nat>>>)
      requires ColumnsValid() && Registered(req)
      ensures |tuples| == |Query(req, |live|)|
      ensures forall i :: 0 <= i < |tuples| ==> |tuples[i]| == |req|
      ensures forall i, j :: 0 <= i < |tuples| && 0 <= j < |req| ==> tuples[i][j] == Some(Query(req, |live|)[i])
    {
      var ids := EntitiesWith(req);
      tuples := [];
      var i := 0;
      while i < |ids|
        invariant 0 <= i <= |ids| && |tuples| == i
        invariant forall m :: 0 <= m < i ==> |tuples[m]| == |req|
        invariant forall m, j :: 0 <= m < i && 0 <= j < |req| ==> tuples[m][j] == Some(ids[m])
      {
        QuerySound(req, |live|, i);
        var ptrs := Pointers(req, ids[i]);
        tuples := tuples + [ptrs];
        i := i + 1;
      }
    }

    /** The pointers `_get_entity_components_*` gathers for one entity. */
    method Pointers(req: seq<nat>, e: nat) returns (ptrs: seq<Option<nat>>)
      requires ColumnsValid() && Registered(req)
      requires forall j :: 0 <= j < |req| ==> cols[req[j]].Has(e)
      ensures |ptrs| == |req|
      ensures forall j :: 0 <= j < |req| ==> ptrs[j] == cols[req[j]].Get(e) == Some(e)
    {
      ptrs := [];
      var j := 0;
      while j < |req|
        invariant 0 <= j <= |req| && |ptrs| == j
        invariant forall m :: 0 <= m < j ==> ptrs[m] == cols[req[m]].Get(e) == Some(e)
      {
        ptrs := ptrs + [cols[req[j]].Get(e)];
        j := j + 1;
      }
    }

    /** `components.get<T>(entity)`: null for a dead entity, else the
        column's `get`. */
    function GetComponent(k: nat, e: nat): (p: Option<nat>)
      reads this, cols
      requires ColumnsValid() && k < |cols|
      ensures p.Some? <==> Exists(e) && cols[k].Has(e)
      ensures p.Some? ==> p.value == e
    {
      if !Exists(e) then None else cols[k].Get(e)
    }

    /** `components.has<T>(entity)` */
    function HasComponent(k: nat, e: nat): (r: bool)
      reads this, cols
      requires k < |cols|
      ensures r <==> Exists(e) && cols[k].Has(e)
    {
      if !Exists(e) then false else cols[k].Has(e)
    }

    /** Because every tag belongs to a live entity, the liveness guard of
        `components.get` and `components.has` never changes their answer. */
    lemma GuardRedundant(k: nat, e: nat)
      requires Valid() && k < |cols|
      ensures GetComponent(k, e) == cols[k].Get(e)
      ensures HasComponent(k, e) == cols[k].Has(e)
    {
      if cols[k].Has(e) {
        assert Exists(e);
      }
    }

    /** `components.get<T>(entity_list)`: one `get` per listed entity. */
    method GetMany(k: nat, es: seq<nat>) returns (ps: seq<Option<nat>>)
      requires Valid() && k < |cols|
      ensures |ps| == |es|
      ensures forall i :: 0 <= i < |es| ==> ps[i] == GetComponent(k, es[i])
    {
      ps := [];
      var i := 0;
      while i < |es|
        invariant 0 <= i <= |es| && |ps| == i
        invariant forall m :: 0 <= m < i ==> ps[m] == GetComponent(k, es[m])
      {
        ps := ps + [GetComponent(k, es[i])];
        i := i + 1;
      }
    }

    /** `components.add<T>(entity, args...)`: null for a dead entity,
        otherwise the column's `add`. */
    method AddComponent(k: nat, e: nat, v: V) returns (p: Option<nat>)
      requires Valid() && k < |cols|
      modifies cols[k]
      ensures Valid()
      ensures !old(Exists(e)) ==> p == None && cols[k].tags == old(cols[k].tags) && cols[k].values == old(cols[k].values)
      ensures old(Exists(e)) ==> p == Some(e) && GetComponent(k, e) == p && cols[k].values[e] == v
      ensures old(Exists(e)) ==>
                && cols[k].tags == (if e < old(|cols[k].tags|) then old(cols[k].tags) else Resize(old(cols[k].tags), e + 1, false))[e := true]
                && cols[k].values == (if e < old(|cols[k].values|) then old(cols[k].values) else Resize(old(cols[k].values), e + 1, cols[k].dflt))[e := v]
    {
      if !Exists(e) {
        return None;
      }
      var q := cols[k].Add(e, v);
      return Some(q);
    }

    /** `components.remove<T>(entity)`: false for a dead entity, otherwise
        the column's `remove`. */
    method RemoveComponent(k: nat, e: nat) returns (r: bool)
      requires Valid() && k < |cols|
      modifies cols[k]
      ensures Valid()
      ensures r == old(HasComponent(k, e)) && !HasComponent(k, e)
      ensures !old(Exists(e)) ==> cols[k].tags == old(cols[k].tags) && cols[k].values == old(cols[k].values)
      ensures old(Exists(e)) ==>
                cols[k].tags == ClearAt(old(cols[k].tags), e, false) &&
                cols[k].values == ClearAt(old(cols[k].values), e, cols[k].dflt)
    {
      if !Exists(e) {
        return false;
      }
      r := cols[k].Remove(e);
    }

    /** `components.first<T>()`: the column's `first`, unguarded; whatever
        it finds is live. */
    method FirstComponent(k: nat) returns (e: nat, p: Option<nat>)
      requires Valid() && k < |cols|
      ensures p.Some? ==> p.value == e && Exists(e) && cols[k].Has(e) && forall i :: 0 <= i < e ==> !cols[k].Has(i)
      ensures p.None? ==> e == InvalidEntity && forall i :: 0 <= i < |cols[k].tags| ==> !cols[k].Has(i)
    {
      e, p := cols[k].First();
    }

    /** `components.allocate<T>(new_size)` */
    method AllocateComponent(k: nat, n: nat) returns (r: bool)
      requires Valid() && k < |cols|
      modifies cols[k]
      ensures Valid()
      ensures r == (n >= old(|cols[k].tags|))
      ensures r ==> cols[k].tags == Resize(old(cols[k].tags), n, false) && cols[k].values == Resize(old(cols[k].values), n, cols[k].dflt)
      ensures !r ==> cols[k].tags == old(cols[k].tags) && cols[k].values == old(cols[k].values)
    {
      r := cols[k].Allocate(n);
    }

    /** Column `k` is the first that `allocate(n)` lets grow. */
    ghost predicate FirstGrowable(k: nat, n: nat)
      reads this, cols
      requires k < |cols|
    {
      n >= |cols[k].tags| && forall j :: 0 <= j < k ==> n < |cols[j].tags|
    }

    /** `components.allocate_all(new_size)`: `allocated || comp.allocate(n)`
        over the columns in order, so only the first column that can grow
        to `n` is resized. */
    method AllocateAll(n: nat) returns (r: bool)
      requires Valid()
      modifies cols
      ensures Valid()
      ensures r <==> exists k :: 0 <= k < |cols| && n >= old(|cols[k].tags|)
      ensures forall k :: 0 <= k < |cols| && old(FirstGrowable(k, n)) ==>
                cols[k].tags == Resize(old(cols[k].tags), n, false) && cols[k].values == Resize(old(cols[k].values), n, cols[k].dflt)
      ensures forall k :: 0 <= k < |cols| && !old(FirstGrowable(k, n)) ==>
                cols[k].tags == old(cols[k].tags) && cols[k].values == old(cols[k].values)
    {
      r := false;
      var i := 0;
      while i < |cols|
        invariant 0 <= i <= |cols|
        invariant Valid()
        invariant r <==> exists k :: 0 <= k < i && n >= old(|cols[k].tags|)
        invariant forall k :: 0 <= k < i && old(FirstGrowable(k, n)) ==>
                    cols[k].tags == Resize(old(cols[k].tags), n, false) && cols[k].values == Resize(old(cols[k].values), n, cols[k].dflt)
        invariant forall k :: 0 <= k < |cols| && !(k < i && old(FirstGrowable(k, n))) ==>
                    cols[k].tags == old(cols[k].tags) && cols[k].values == old(cols[k].values)
      {
        if !r {
          r := AllocateComponent(i, n);
        }
        i := i + 1;
      }
    }

    /** The storage as a value: the values vector of every column. */
    function Values(): (vals: seq<seq<V>>)
      reads this, cols
      ensures |vals| == |cols| && forall k :: 0 <= k < |cols| ==> vals[k] == cols[k].values
    {
      seq(|cols|, k requires 0 <= k < |cols| reads cols => cols[k].values)
    }

    /** Every entity the query lists has a slot in each requested column. */
    lemma QueryFits(req: seq<nat>)
      requires ColumnsValid() && Registered(req)
      ensures Fits(Values(), req, Query(req, |live|))
    {
      var q := Query(req, |live|);
      forall m | 0 <= m < |q| ensures Slots(Values(), req, q[m]) {
        QuerySound(req, |live|, m);
        forall j | 0 <= j < |req| ensures q[m] < |Values()[req[j]]| {
          assert cols[req[j]].Has(q[m]);
        }
      }
    }

    /** What `systems.execute(system)` leaves in the storage, and the calls
        it makes: the system runs for the entities of `iterate`, in order. */
    ghost function Effect(req: seq<nat>, system: (nat, seq<V>) -> seq<V>): (seq<seq<V>>, seq<Call<V>>)
      reads this, cols
      requires ColumnsValid() && Registered(req) && KeepsArity(system)
    {
      QueryFits(req);
      Run(Values(), req, Query(req, |live|), system)
    }

    /** The `m`-th call is for the `m`-th matching entity, in ascending id
        order, and is handed the values its components hold beforehand. */
    lemma EffectCalls(req: seq<nat>, system: (nat, seq<V>) -> seq<V>, m: nat)
      requires ColumnsValid() && Registered(req) && KeepsArity(system)
      requires m < |Query(req, |live|)|
      ensures Slots(Values(), req, Query(req, |live|)[m])
      ensures |Effect(req, system).1| == |Query(req, |live|)|
      ensures Effect(req, system).1[m] == Call(Query(req, |live|)[m], Args(Values(), req, Query(req, |live|)[m]))
    {
      var q := Query(req, |live|);
      QueryFits(req);
      forall a, b | 0 <= a < b < |q| ensures q[a] < q[b] {
        QueryAscending(req, |live|, a, b);
      }
      RunCalls(Values(), req, q, system, m);
    }

    /** Afterwards each requested component of each matching entity holds
        what the system returned for it (no type requested twice). */
    lemma EffectWrites(req: seq<nat>, system: (nat, seq<V>) -> seq<V>, m: nat, j: nat)
      requires ColumnsValid() && Registered(req) && KeepsArity(system) && Distinct(req)
      requires m < |Query(req, |live|)| && j < |req|
      ensures |Effect(req, system).1| == |Query(req, |live|)|
      ensures |Effect(req, system).0| == |cols|
      ensures Query(req, |live|)[m] < |Effect(req, system).0[req[j]]|
      ensures Effect(req, system).0[req[j]][Query(req, |live|)[m]]
              == system(Query(req, |live|)[m], Effect(req, system).1[m].args)[j]
    {
      var q := Query(req, |live|);
      QueryFits(req);
      forall a, b | 0 <= a < b < |q| ensures q[a] < q[b] {
        QueryAscending(req, |live|, a, b);
      }
      assert Slots(Values(), req, q[m]);
      RunWrites(Values(), req, q, system, m, j);
    }

    /** Components of unrequested types, and of entities that do not match,
        keep their values. */
    lemma EffectFrame(req: seq<nat>, system: (nat, seq<V>) -> seq<V>, k: nat, d: nat)
      requires ColumnsValid() && Registered(req) && KeepsArity(system)
      requires k < |cols| && d < |cols[k].values| && (k !in req || !Matches(req, d))
      ensures |Effect(req, system).0| == |cols| && d < |Effect(req, system).0[k]|
      ensures Effect(req, system).0[k][d] == cols[k].values[d]
    {
      var q := Query(req, |live|);
      QueryFits(req);
      if d in q {
        var m :| 0 <= m < |q| && q[m] == d;
        QuerySound(req, |live|, m);
      }
      RunFrame(Values(), req, q, system, k, d);
    }

    /** A write through a pointer into column `k`. */
    method StoreSlot(k: nat, e: nat, v: V)
      requires ColumnsValid() && k < |cols| && cols[k].Has(e)
      modifies cols[k]
      ensures ColumnsValid()
      ensures forall i :: 0 <= i < |cols| ==> cols[i].tags == old(cols[i].tags)
      ensures e < |old(Values())[k]| && Values() == old(Values())[k := old(Values())[k][e := v]]
    {
      cols[k].Store(e, v);
    }

    /** The writes a system makes through the pointers it was handed. */
    method StoreRow(req: seq<nat>, e: nat, out: seq<V>)
      requires Valid() && Registered(req) && |out| == |req|
      requires forall j :: 0 <= j < |req| ==> cols[req[j]].Has(e)
      requires Slots(Values(), req, e)
      modifies cols
      ensures Valid()
      ensures forall k :: 0 <= k < |cols| ==> cols[k].tags == old(cols[k].tags)
      ensures Values() == WriteRow(old(Values()), req, e, out)
    {
      var j := 0;
      while j < |req|
        invariant 0 <= j <= |req|
        invariant ColumnsValid()
        invariant forall k :: 0 <= k < |cols| ==> cols[k].tags == old(cols[k].tags)
        invariant Values() == WriteRow(old(Values()), req[..j], e, out[..j])
      {
        assert req[..j + 1][..j] == req[..j] && out[..j + 1][..j] == out[..j];
        assert cols[req[j]].Has(e);
        StoreSlot(req[j], e, out[j]);
        j := j + 1;
      }
      assert req[..j] == req && out[..j] == out;
    }

    /** One invocation of a system on entity `e`. */
    method Invoke(req: seq<nat>, e: nat, system: (nat, seq<V>) -> seq<V>) returns (args: seq<V>, out: seq<V>)
      requires Valid() && Registered(req) && KeepsArity(system)
      requires forall j :: 0 <= j < |req| ==> cols[req[j]].Has(e)
      requires Slots(Values(), req, e)
      modifies cols
      ensures Valid()
      ensures forall k :: 0 <= k < |cols| ==> cols[k].tags == old(cols[k].tags)
      ensures args == Args(old(Values()), req, e) && out == system(e, args)
      ensures Values() == WriteRow(old(Values()), req, e, out)
    {
      args := Args(Values(), req, e);
      out := system(e, args);
      StoreRow(req, e, out);
    }

    /** The loop of `systems.execute` over the entities of `iterate`. */
    method InvokeAll(req: seq<nat>, ids: seq<nat>, system: (nat, seq<V>) -> seq<V>) returns (calls: seq<Call<V>>)
      requires Valid() && Registered(req) && KeepsArity(system)
      requires forall m, j :: 0 <= m < |ids| && 0 <= j < |req| ==> cols[req[j]].Has(ids[m])
      requires Fits(Values(), req, ids)
      modifies cols
      ensures Valid()
      ensures forall k :: 0 <= k < |cols| ==> cols[k].tags == old(cols[k].tags)
      ensures (Values(), calls) == Run(old(Values()), req, ids, system)
    {
      calls := [];
      var i := 0;
      while i < |ids|
        invariant 0 <= i <= |ids|
        invariant Valid()
        invariant forall k :: 0 <= k < |cols| ==> cols[k].tags == old(cols[k].tags)
        invariant (Values(), calls) == Run(old(Values()), req, ids[..i], system)
      {
        var e := ids[i];
        assert ids[..i + 1][..i] == ids[..i];
        forall j | 0 <= j < |req| ensures cols[req[j]].Has(e) {
          assert old(cols[req[j]].Has(ids[i]));
        }
        assert Slots(old(Values()), req, e);
        var args, out := Invoke(req, e, system);
        calls := calls + [Call(e, args)];
        i := i + 1;
      }
      assert ids[..i] == ids;
    }

    /** `systems.execute(system)` for a system taking the entity id and a
        pointer per requested type: it is handed the values its pointers
        point at, and the values it returns are what it writes back through
        them. */
    method Execute(req: seq<nat>, system: (nat, seq<V>) -> seq<V>) returns (calls: seq<Call<V>>)
      requires Valid() && Registered(req) && KeepsArity(system)
      modifies cols
      ensures Valid()
      ensures forall k :: 0 <= k < |cols| ==> cols[k].tags == old(cols[k].tags)
      ensures (Values(), calls) == old(Effect(req, system))
    {
      ghost var q := Query(req, |live|);
      var rows := Iterate(req);
      var ids := seq(|rows|, m requires 0 <= m < |rows| => rows[m].entity);
      assert ids == q;
      forall m, j | 0 <= m < |ids| && 0 <= j < |req| ensures cols[req[j]].Has(ids[m]) {
        QuerySound(req, |live|, m);
      }
      QueryFits(req);
      calls := InvokeAll(req, ids, system);
    }

    /** `systems.execute(system)` for a system taking only a pointer per
        requested type. */
    method ExecuteComponents(req: seq<nat>, system: seq<V> -> seq<V>) returns (calls: seq<Call<V>>)
      requires Valid() && Registered(req)
      requires forall vs :: |system(vs)| == |vs|
      modifies cols
      ensures Valid()
      ensures forall k :: 0 <= k < |cols| ==> cols[k].tags == old(cols[k].tags)
      ensures (Values(), calls) == old(Effect(req, Ignoring(system)))
    {
      calls := Execute(req, Ignoring(system));
    }
  }
}
