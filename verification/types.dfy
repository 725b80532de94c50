/**
 * The compile-time type-list predicates of include/neat/types.hpp (the file
 * neat_types.hpp is a byte-for-byte copy of it).  A C++ type is a value of
 * `Ty`; a template parameter pack `Ts...` is a `seq<Ty>`.
 */
module NeatTypes {

  /** A C++ type, reduced to what the predicates inspect.  `Tuple` is
      `std::tuple<...>`, needed by `is_subset_of`. */
  datatype Ty =
    | Prim(name: string)
    | Class(name: string)
    | Tuple(elems: seq<Ty>)
    | Ref(t: Ty)
    | Ptr(t: Ty)
    | Const(t: Ty)
    | Volatile(t: Ty)

  /** `std::is_class_v`: a class or struct (a `std::tuple` is one), possibly
      cv-qualified; never a reference, a pointer or a primitive. */
  predicate IsClass(t: Ty) {
    match t
    case Class(_) => true
    case Tuple(_) => true
    case Const(u) => IsClass(u)
    case Volatile(u) => IsClass(u)
    case _ => false
  }

  /** `is_one_of<T, Ts...>`: a fold of `||` over `std::is_same<T, Ts>`. */
  function IsOneOf(t: Ty, ts: seq<Ty>): (r: bool)
    ensures r <==> t in ts
    ensures ts == [] ==> !r
  {
    if ts == [] then false else ts[0] == t || IsOneOf(t, ts[1..])
  }

  /** `are_all_same<T, Ts...>`: a conjunction of `std::is_same<T, Ts>`. */
  function AreAllSame(t: Ty, ts: seq<Ty>): (r: bool)
    ensures r <==> forall i :: 0 <= i < |ts| ==> ts[i] == t
  {
    if ts == [] then true else ts[0] == t && AreAllSame(t, ts[1..])
  }

  /** `are_all_classes<Ts...>`: a fold of `&&` over `std::is_class_v`. */
  function AreAllClasses(ts: seq<Ty>): (r: bool)
    ensures r <==> forall i :: 0 <= i < |ts| ==> IsClass(ts[i])
  {
    if ts == [] then true else IsClass(ts[0]) && AreAllClasses(ts[1..])
  }

  /** The fold `(is_one_of<Subset, Set...> && ...)` over a subset pack. */
  function AllOneOf(sub: seq<Ty>, sup: seq<Ty>): (r: bool)
    ensures r <==> forall i :: 0 <= i < |sub| ==> sub[i] in sup
  {
    if sub == [] then true else IsOneOf(sub[0], sup) && AllOneOf(sub[1..], sup)
  }

  /** `is_subset_of<Subset, Set>`: elementwise membership for two tuples
      (duplicates allowed, the empty tuple is a subset of every tuple), and
      type equality for anything else. */
  function IsSubsetOf(sub: Ty, sup: Ty): (r: bool)
    ensures sub.Tuple? && sup.Tuple? ==>
              (r <==> forall i :: 0 <= i < |sub.elems| ==> sub.elems[i] in sup.elems)
    ensures !(sub.Tuple? && sup.Tuple?) ==> (r <==> sub == sup)
    ensures sub == Tuple([]) && sup.Tuple? ==> r
  {
    if sub.Tuple? && sup.Tuple? then AllOneOf(sub.elems, sup.elems) else sub == sup
  }

  /** `get_index<T, Ts...>()`: -1 when `T` is not in the pack, otherwise the
      position of its first occurrence. */
  function GetIndex(t: Ty, ts: seq<Ty>): (r: int)
    ensures -1 <= r < |ts|
    ensures r == -1 <==> t !in ts
    ensures r >= 0 ==> ts[r] == t && forall j :: 0 <= j < r ==> ts[j] != t
  {
    if ts == [] then -1
    else if !IsOneOf(t, ts) then -1
    else if t == ts[0] then 0
    else 1 + GetIndex(t, ts[1..])
  }

  /** A type with no reference, pointer, const or volatile layer on top. */
  predicate IsBase(t: Ty) {
    !(t.Ref? || t.Ptr? || t.Const? || t.Volatile?)
  }

  /** Wraps `base` in the given layers, outermost first; every layer is one of
      `&`, `*`, `const`, `volatile` (the argument of the wrapper is ignored). */
  function Wrap(layers: seq<Ty>, base: Ty): Ty
    decreases |layers|
  {
    if layers == [] then base
    else
      match layers[0]
      case Ref(_) => Ref(Wrap(layers[1..], base))
      case Ptr(_) => Ptr(Wrap(layers[1..], base))
      case Const(_) => Const(Wrap(layers[1..], base))
      case Volatile(_) => Volatile(Wrap(layers[1..], base))
      case _ => Wrap(layers[1..], base)
  }

  /** `remove_all_t<T>`: strips every `&`, `*`, `const` and `volatile` layer.
      The result is a base type, and `t` is that base type under some stack of
      layers. */
  function RemoveAll(t: Ty): (r: Ty)
    ensures IsBase(r)
    ensures exists layers :: Wrap(layers, r) == t
  {
    match t
    case Ref(u) => var r := RemoveAll(u); WrapOne(t, u, r); r
    case Ptr(u) => var r := RemoveAll(u); WrapOne(t, u, r); r
    case Const(u) => var r := RemoveAll(u); WrapOne(t, u, r); r
    case Volatile(u) => var r := RemoveAll(u); WrapOne(t, u, r); r
    case _ => assert Wrap([], t) == t; t
  }

  /** One more layer on top of a wrapped type is still a wrapped type. */
  lemma WrapOne(t: Ty, u: Ty, r: Ty)
    requires !IsBase(t) && u == t.t
    requires exists layers :: Wrap(layers, r) == u
    ensures exists layers :: Wrap(layers, r) == t
  {
    var layers :| Wrap(layers, r) == u;
    assert Wrap([t] + layers, r) == t by {
      assert ([t] + layers)[1..] == layers;
    }
  }

  /** Stripping everything twice is stripping it once. */
  lemma {:induction false} RemoveAllIdempotent(t: Ty)
    ensures RemoveAll(RemoveAll(t)) == RemoveAll(t)
  {
    match t
    case Ref(u) => RemoveAllIdempotent(u);
    case Ptr(u) => RemoveAllIdempotent(u);
    case Const(u) => RemoveAllIdempotent(u);
    case Volatile(u) => RemoveAllIdempotent(u);
    case _ =>
  }

  /** Adding any stack of layers does not change the underlying type. */
  lemma {:induction false} RemoveAllWrap(layers: seq<Ty>, base: Ty)
    ensures RemoveAll(Wrap(layers, base)) == RemoveAll(base)
    decreases |layers|
  {
    if layers != [] {
      RemoveAllWrap(layers[1..], base);
    }
  }

  /** `are_same_underlying_types<T, U>`: equal after `remove_all_t`. */
  function AreSameUnderlyingTypes(t: Ty, u: Ty): (r: bool)
    ensures IsBase(t) && IsBase(u) ==> (r <==> t == u)
  {
    RemoveAll(t) == RemoveAll(u)
  }

  /** `are_same_underlying_types` is an equivalence: reflexive, symmetric,
      transitive, and it relates every type to its own underlying type. */
  lemma SameUnderlyingIsEquivalence(t: Ty, u: Ty, w: Ty)
    ensures AreSameUnderlyingTypes(t, t)
    ensures AreSameUnderlyingTypes(t, u) ==> AreSameUnderlyingTypes(u, t)
    ensures AreSameUnderlyingTypes(t, u) && AreSameUnderlyingTypes(u, w) ==> AreSameUnderlyingTypes(t, w)
    ensures AreSameUnderlyingTypes(t, RemoveAll(t))
  {
    RemoveAllIdempotent(t);
  }

  /** `get_index` finds a type exactly when `is_one_of` holds, and then the
      pack holds that type at the index found. */
  lemma GetIndexIffOneOf(t: Ty, ts: seq<Ty>)
    ensures GetIndex(t, ts) >= 0 <==> IsOneOf(t, ts)
    ensures GetIndex(t, ts) >= 0 ==> ts[GetIndex(t, ts)] == t
  {
  }

  /** The repository's own static assertions on `is_one_of` and
      `are_all_same`.  `uint8_t` is an alias of `unsigned char`, so both
      name the one `Ty`. */
  lemma PackAssertions()
    ensures var i32, dbl, flt, chr, vd := Prim("int"), Prim("double"), Prim("float"), Prim("char"), Prim("void");
            var uchar, u8 := Prim("unsigned char"), Prim("unsigned char");
            && IsOneOf(i32, [dbl, flt, i32])
            && IsOneOf(Ptr(chr), [dbl, Ptr(chr), i32])
            && !IsOneOf(i32, [])
            && !IsOneOf(i32, [dbl, flt])
            && !IsOneOf(Ptr(vd), [dbl, flt, Ptr(i32)])
            && !IsOneOf(i32, [Const(i32), Ref(i32), Ptr(i32)])
            && AreAllSame(i32, [i32, i32, i32])
            && AreAllSame(i32, [])
            && AreAllSame(uchar, [u8])
            && !AreAllSame(i32, [i32, Ref(i32), i32])
            && !AreAllSame(i32, [Ptr(i32), i32, i32])
            && !AreAllSame(i32, [Const(i32), i32, i32])
  {
    var i32, dbl, flt, chr, vd := Prim("int"), Prim("double"), Prim("float"), Prim("char"), Prim("void");
    assert [dbl, flt, i32][2] == i32;
    assert [dbl, Ptr(chr), i32][1] == Ptr(chr);
    assert "int" != "double" by { assert "int"[0] != "double"[0]; }
    assert "int" != "float" by { assert "int"[0] != "float"[0]; }
    assert "void" != "int" by { assert "void"[0] != "int"[0]; }
    assert i32 !in [dbl, flt];
    assert Ptr(vd) !in [dbl, flt, Ptr(i32)];
    assert [i32, Ref(i32), i32][1] != i32;
    assert [Ptr(i32), i32, i32][0] != i32;
    assert [Const(i32), i32, i32][0] != i32;
  }

  /** Some of the repository's own static assertions on `is_subset_of`. */
  lemma SubsetAssertions()
    ensures var i32, chr, dbl, a, b, c := Prim("int"), Prim("char"), Prim("double"), Class("A"), Class("B"), Class("C");
            && IsSubsetOf(Tuple([i32, chr]), Tuple([chr, i32, a]))
            && IsSubsetOf(Tuple([i32, i32]), Tuple([chr, i32, b]))
            && IsSubsetOf(Tuple([]), Tuple([c]))
            && !IsSubsetOf(c, Class("D"))
            && !IsSubsetOf(Tuple([i32, chr]), Tuple([chr, dbl]))
  {
    var i32, chr, dbl := Prim("int"), Prim("char"), Prim("double");
    assert [chr, i32, Class("A")][1] == i32;
    assert [chr, i32, Class("A")][0] == chr;
    assert [chr, i32, Class("B")][1] == i32;
    assert "C" != "D" by { assert "C"[0] != "D"[0]; }
    assert "int" != "char" by { assert "int"[0] != "char"[0]; }
    assert "int" != "double" by { assert "int"[0] != "double"[0]; }
    assert i32 !in [chr, dbl];
    assert [i32, chr][0] == i32;
  }

  /** Some of the repository's own static assertions on `are_all_classes`. */
  lemma ClassAssertions()
    ensures var i32, a, b, c := Prim("int"), Class("A"), Class("B"), Class("C");
            && AreAllClasses([a, b, c])
            && AreAllClasses([])
            && !AreAllClasses([i32, a])
            && !AreAllClasses([Ptr(a)])
  {
    assert [Prim("int"), Class("A")][0] == Prim("int");
    assert [Ptr(Class("A"))][0] == Ptr(Class("A"));
  }

  /** Some of the repository's own static assertions on `get_index`. */
  lemma GetIndexAssertions()
    ensures var a, b := Class("A"), Class("B");
            && GetIndex(a, [b, a, a, a]) == 1
            && GetIndex(a, [Const(a), Ref(a), Ptr(a)]) == -1
  {
    var a, b := Class("A"), Class("B");
    assert [b, a, a, a][1] == a;
    assert "A" != "B" by { assert "A"[0] != "B"[0]; }
  }

  /** Some of the repository's own static assertions on `remove_all_t`. */
  lemma RemoveAllAssertions()
    ensures var i32, chr := Prim("int"), Prim("char");
            && RemoveAll(Ref(Ptr(Const(Volatile(i32))))) == i32
            && RemoveAll(Const(i32)) == i32
            && RemoveAll(chr) != i32
  {
    assert "char" != "int" by { assert "char"[0] != "int"[0]; }
  }

  /** Some of the repository's own static assertions on
      `are_same_underlying_types`. */
  lemma SameUnderlyingAssertions()
    ensures var i32, chr := Prim("int"), Prim("char");
            && AreSameUnderlyingTypes(Ref(Const(Ptr(Volatile(Const(i32))))), Ref(i32))
            && AreSameUnderlyingTypes(Const(i32), i32)
            && !AreSameUnderlyingTypes(chr, i32)
  {
    assert "char" != "int" by { assert "char"[0] != "int"[0]; }
  }
}
