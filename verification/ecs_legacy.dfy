/**
 * The earlier revision of the engine, ecs.hpp.
 *
 * Same layout as NeatEcs (columns indexed by entity id, component types
 * named by column position, pointers as entity ids) with four differences:
 * `create` reuses the lowest dead id instead of popping a queue, a column's
 * `remove` clears only the tag and keeps the stored value, a column can be
 * cleared, and `components.has` does not check liveness.
 */
module LegacyEcs {
  import opened Wrappers
  import NeatEcs

  /** `__componentlist<T>`.  `dflt` is a default-constructed `T`, which
      fills the slots a resize adds. */
  class LegacyColumn<V> {
    var tags: seq<bool>
    var values: seq<V>
    const dflt: V

    ghost predicate Valid()
      reads this
    {
      |tags| == |values|
    }

    constructor (dflt: V)
      ensures Valid() && this.dflt == dflt
      ensures tags == [] && values == []
    {
      this.dflt := dflt;
      tags, values := [], [];
    }

    /** `has(entity)`: false past the end of the tags, else the tag. */
    function Has(e: nat): (r: bool)
      reads this
      ensures r ==> e < |tags|
      ensures e < |tags| ==> (r <==> tags[e])
    {
      e < |tags| && tags[e]
    }

    /** `get(entity)`: the slot, or null without a tag. */
    function Get(e: nat): (p: Option<nat>)
      reads this
      requires Valid()
      ensures p.None? <==> !Has(e)
      ensures p.Some? ==> p.value == e && e < |values|
    {
      if !Has(e) then None else Some(e)
    }

    /** `add(entity, args...)`: grows both vectors to `e + 1` when needed,
        tags the slot and stores the new value. */
    method Add(e: nat, v: V) returns (p: nat)
      requires Valid()
      modifies this
      ensures Valid()
      ensures p == e && Has(e) && values[e] == v
      ensures |tags| == (if e < old(|tags|) then old(|tags|) else e + 1)
      ensures forall d :: 0 <= d < |tags| && d != e ==> Has(d) == old(Has(d))
      ensures forall d :: 0 <= d < old(|values|) && d != e ==> values[d] == old(values)[d]
      ensures forall d :: old(|values|) <= d < |values| && d != e ==> values[d] == dflt
    {
      if e >= |tags| {
        tags := NeatEcs.Resize(tags, e + 1, false);
        values := NeatEcs.Resize(values, e + 1, dflt);
      }
      tags := tags[e := true];
      values := values[e := v];
      return e;
    }

    /** `remove(entity)`: clears the tag; the stored value stays. */
    method Remove(e: nat) returns (r: bool)
      requires Valid()
      modifies this
      ensures Valid()
      ensures r == old(Has(e)) && !Has(e)
      ensures tags == NeatEcs.ClearAt(old(tags), e, false)
      ensures values == old(values)
    {
      if !Has(e) {
        return false;
      }
      tags := tags[e := false];
      return true;
    }

    /** `clear()`: empties both vectors, so no entity has the component. */
    method Clear()
      requires Valid()
      modifies this
      ensures Valid()
      ensures tags == [] && values == []
      ensures forall e: nat :: !Has(e)
    {
      tags, values := [], [];
    }
  }

  /** `ecs<Cs...>` with its `entities` and `components` parts.  There is no
      free queue: dead ids are found by scanning the liveness vector. */
  class LegacyEngine<V> {
    const cols: seq<LegacyColumn<V>>
    var live: seq<bool>

    ghost predicate ColumnsValid()
      reads this, cols
    {
      && (forall i, j :: 0 <= i < |cols| && 0 <= j < |cols| && i != j ==> cols[i] != cols[j])
      && (forall k :: 0 <= k < |cols| ==> cols[k].Valid())
    }

    /** A tag in any column belongs to a live entity. */
    ghost predicate TaggedAreLive()
      reads this, cols
    {
      forall k, e: nat :: 0 <= k < |cols| && cols[k].Has(e) ==> Exists(e)
    }

    ghost predicate Valid()
      reads this, cols
    {
      ColumnsValid() && TaggedAreLive()
    }

    /** `ecs()`: one empty column per registered type, no entities. */
    constructor (defaults: seq<V>)
      ensures Valid()
      ensures |cols| == |defaults|
      ensures forall k :: 0 <= k < |cols| ==> fresh(cols[k]) && cols[k].dflt == defaults[k] && cols[k].tags == []
      ensures live == []
    {
      var cs: seq<LegacyColumn<V>> := [];
      while |cs| < |defaults|
        invariant |cs| <= |defaults|
        invariant forall k :: 0 <= k < |cs| ==> fresh(cs[k]) && cs[k].Valid() && cs[k].dflt == defaults[k] && cs[k].tags == []
        invariant forall i, j :: 0 <= i < |cs| && 0 <= j < |cs| && i != j ==> cs[i] != cs[j]
      {
        var c := new LegacyColumn(defaults[|cs|]);
        cs := cs + [c];
      }
      cols := cs;
      live := [];
    }

    /** `entities.exists(entity)`: bounds-checked liveness. */
    function Exists(e: nat): (r: bool)
      reads this
      ensures r ==> e < |live|
      ensures e < |live| ==> (r <==> live[e])
    {
      e < |live| && live[e]
    }

    /** `entities.create()`: the lowest dead id comes back to life; when
        every id is live a new one is appended. */
    method Create() returns (e: nat)
      requires Valid()
      modifies this
      ensures Valid()
      ensures !old(Exists(e)) && Exists(e)
      ensures forall d :: 0 <= d < e ==> old(Exists(d))
      ensures e < old(|live|) ==> live == old(live)[e := true]
      ensures e == old(|live|) ==> live == old(live) + [true]
      ensures e <= old(|live|)
    {
      var i := 0;
      while i < |live|
        invariant 0 <= i <= |live|
        invariant forall d :: 0 <= d < i ==> live[d]
      {
        if !live[i] {
          live := live[i := true];
          assert forall d: nat :: old(Exists(d)) ==> Exists(d);
          return i;
        }
        i := i + 1;
      }
      e := |live|;
      live := live + [true];
      assert forall d: nat :: old(Exists(d)) ==> Exists(d);
    }

    /** `entities.remove(entity)` for an id that is not live: false, and
        nothing changes. */
    method RemoveEntity(e: nat) returns (r: bool)
      requires Valid() && !Exists(e)
      ensures !r
    {
      r := false;
    }

    /** `components.get<T>(entity)`: null for a dead entity, else the
        column's `get`. */
    function GetComponent(k: nat, e: nat): (p: Option<nat>)
      reads this, cols
      requires ColumnsValid() && k < |cols|
      ensures p.Some? <==> Exists(e) && cols[k].Has(e)
      ensures p.Some? ==> p.value == e
    {
      if !Exists(e) then None else cols[k].Get(e)
    }

    /** `components.has<T>(entity)`: the column's `has`, without a liveness
        check; the reads clause leaves out `this`, so `live` is never
        consulted. */
    function HasComponent(k: nat, e: nat): (r: bool)
      reads cols
      requires k < |cols|
      ensures r ==> e < |cols[k].tags|
      ensures e < |cols[k].tags| ==> (r <==> cols[k].tags[e])
    {
      cols[k].Has(e)
    }

    /** The missing liveness check in `has` is harmless while tags belong
        to live entities: it answers as the guarded `get` does. */
    lemma {:induction false} HasAgreesWithGet(k: nat, e: nat)
      requires Valid() && k < |cols|
      ensures HasComponent(k, e) <==> GetComponent(k, e).Some?
    {
      if HasComponent(k, e) {
        assert cols[k].Has(e);
      }
    }

    /** `components.add<T>(entity, args...)`: null for a dead entity, else
        the column's `add`. */
    method AddComponent(k: nat, e: nat, v: V) returns (p: Option<nat>)
      requires Valid() && k < |cols|
      modifies cols[k]
      ensures Valid()
      ensures !old(Exists(e)) ==> p == None && cols[k].tags == old(cols[k].tags) && cols[k].values == old(cols[k].values)
      ensures old(Exists(e)) ==> p == Some(e) && GetComponent(k, e) == p && cols[k].values[e] == v
      ensures old(Exists(e)) ==> forall d :: 0 <= d < |cols[k].tags| && d != e ==> cols[k].Has(d) == old(cols[k].Has(d))
      ensures |cols[k].values| >= old(|cols[k].values|)
      ensures old(Exists(e)) ==> forall d :: 0 <= d < old(|cols[k].values|) && d != e ==> cols[k].values[d] == old(cols[k].values)[d]
    {
      if !Exists(e) {
        return None;
      }
      var q := cols[k].Add(e, v);
      p := Some(q);
    }

    /** `components.remove<T>(entity)`: false for a dead entity, else the
        column's `remove`, which keeps the stored value. */
    method RemoveComponent(k: nat, e: nat) returns (r: bool)
      requires Valid() && k < |cols|
      modifies cols[k]
      ensures Valid()
      ensures r == old(GetComponent(k, e)).Some? && GetComponent(k, e).None?
      ensures !old(Exists(e)) ==> cols[k].tags == old(cols[k].tags)
      ensures old(Exists(e)) ==> cols[k].tags == NeatEcs.ClearAt(old(cols[k].tags), e, false)
      ensures cols[k].values == old(cols[k].values)
    {
      if !Exists(e) {
        return false;
      }
      r := cols[k].Remove(e);
    }
  }
}
