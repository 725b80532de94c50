/**
 * The type-level helpers in the `typing` namespace of neat_ecs.hpp.  They
 * decide which component types an engine may register and map a requested
 * component type to the position of its column.
 */
module EcsTyping {
  import opened NeatTypes

  /** `are_unique_types<Ts...>`: no type of the pack is repeated. */
  function AreUniqueTypes(ts: seq<Ty>): (r: bool)
    ensures r <==> forall i, j :: 0 <= i < j < |ts| ==> ts[i] != ts[j]
  {
    if ts == [] then true
    else
      var rest := AreUniqueTypes(ts[1..]);
      assert forall i, j :: 1 <= i < j < |ts| ==> ts[i] == ts[1..][i - 1] && ts[j] == ts[1..][j - 1];
      !IsOneOf(ts[0], ts[1..]) && rest
  }

  /** `typing::get_index<T, Registered...>()`: the static assertion that `T`
      is registered becomes the precondition, and the result is the position
      of the first occurrence of `T`. */
  function RegisteredIndex(t: Ty, ts: seq<Ty>): (r: nat)
    requires t in ts
    ensures r < |ts| && ts[r] == t
    ensures forall j :: 0 <= j < r ==> ts[j] != t
  {
    if t == ts[0] then 0 else 1 + RegisteredIndex(t, ts[1..])
  }

  /** `typing::is_subset_of`: only a pair of tuples can be a subset; unlike
      the general `neat::types` version, any other pair is rejected. */
  function IsRequestSubset(sub: Ty, sup: Ty): (r: bool)
    ensures r <==> sub.Tuple? && sup.Tuple? &&
                   forall i :: 0 <= i < |sub.elems| ==> sub.elems[i] in sup.elems
  {
    sub.Tuple? && sup.Tuple? && AllOneOf(sub.elems, sup.elems)
  }

  /** With pairwise distinct registered types, the registration position and
      the column index are one and the same: the i-th registered type selects
      column i.  This is what lets the engine name component types by their
      column index. */
  lemma RegisteredIndexIsPosition(ts: seq<Ty>, i: nat)
    requires AreUniqueTypes(ts) && i < |ts|
    ensures RegisteredIndex(ts[i], ts) == i
  {
  }

  /** The engine's `get_index` agrees with the general `neat::types::get_index`
      on every registered type. */
  lemma RegisteredIndexAgrees(t: Ty, ts: seq<Ty>)
    requires t in ts
    ensures RegisteredIndex(t, ts) == GetIndex(t, ts)
  {
  }
}
