/**
 * The pure part of include/neat/lua.hpp: splitting a dotted global name such
 * as "Foo.Bar.Baz" into the names of the nested tables ("Foo", "Bar") and the
 * name of the variable ("Baz"), and the checks on the table names made before
 * any table is looked up.
 */
module LuaNames {
  import opened Wrappers

  const Delimiter: char := '.'

  /** `std::string::find(c, pos)`: the first position at or after `pos`
      holding `c`, or `None` for `npos`. */
  function Find(s: string, c: char, pos: nat): (r: Option<nat>)
    ensures r.Some? ==> pos <= r.value < |s| && s[r.value] == c &&
                        forall j :: pos <= j < r.value ==> s[j] != c
    ensures r.None? ==> forall j :: pos <= j < |s| ==> s[j] != c
    decreases |s| - pos
  {
    if pos >= |s| then None
    else if s[pos] == c then Some(pos)
    else Find(s, c, pos + 1)
  }

  /** The split, defined piece by piece: no dot gives no tables; otherwise
      the text before the first dot is the first table name and the rest is
      split the same way. */
  function Split(s: string): (seq<string>, string)
    decreases |s|
  {
    var f := Find(s, Delimiter, 0);
    if f.None? then ([], s)
    else
      var rest := Split(s[f.value + 1..]);
      ([s[..f.value]] + rest.0, rest.1)
  }

  /** `Find` in a suffix is `Find` in the whole string, shifted. */
  lemma FindSuffix(s: string, start: nat)
    requires start <= |s|
    ensures Find(s[start..], Delimiter, 0) ==
              match Find(s, Delimiter, start)
              case None => None
              case Some(e) => Some(e - start)
  {
    var t := s[start..];
    assert forall j :: 0 <= j < |t| ==> t[j] == s[start + j];
  }

  /** One unfolding of `Split` at a string whose first dot is at `i`. */
  lemma SplitUnfold(t: string, i: nat)
    requires Find(t, Delimiter, 0) == Some(i)
    ensures Split(t) == ([t[..i]] + Split(t[i + 1..]).0, Split(t[i + 1..]).1)
  {
  }

  /** Splitting a suffix that starts at `start` and has its first dot at
      `end` peels off one table name. */
  lemma SplitStep(s: string, start: nat, end: nat)
    requires start <= |s| && Find(s, Delimiter, start) == Some(end)
    ensures Split(s[start..]) ==
              ([s[start..end]] + Split(s[end + 1..]).0, Split(s[end + 1..]).1)
  {
    var t := s[start..];
    FindSuffix(s, start);
    var i := end - start;
    SplitUnfold(t, i);
    assert t[i + 1..] == s[end + 1..];
    assert t[..i] == s[start..end];
  }

  /** The loop step of `__luaN_splitnestedname`, stated on what has been
      pushed so far. */
  lemma PushStep(s: string, start: nat, end: nat, tables: seq<string>)
    requires start <= |s| && Find(s, Delimiter, start) == Some(end)
    ensures tables + Split(s[start..]).0 == (tables + [s[start..end]]) + Split(s[end + 1..]).0
    ensures Split(s[start..]).1 == Split(s[end + 1..]).1
  {
    SplitStep(s, start, end);
  }

  /** No dot from `start` on: the rest is the variable. */
  lemma SplitNoDot(s: string, start: nat)
    requires start <= |s| && Find(s, Delimiter, start).None?
    ensures Split(s[start..]) == ([], s[start..])
  {
    FindSuffix(s, start);
  }

  /** `__luaN_splitnestedname`: repeatedly finds the next dot from `start`,
      pushes the text before it as a table name and moves `start` past it;
      what is left after the last dot is the variable name. */
  method SplitNestedName(s: string) returns (tables: seq<string>, variable: string)
    ensures (tables, variable) == Split(s)
  {
    var start: nat := 0;
    tables := [];
    assert s[0..] == s;
    while true
      invariant start <= |s|
      invariant Split(s).0 == tables + Split(s[start..]).0
      invariant Split(s).1 == Split(s[start..]).1
      decreases |s| - start
    {
      var found := Find(s, Delimiter, start);
      if found.None? {
        break;
      }
      var end := found.value;
      var token := s[start..end];
      PushStep(s, start, end, tables);
      start := end + 1;
      tables := tables + [token];
    }
    SplitNoDot(s, start);
    assert tables + [] == tables;
    variable := s[start..];
  }


  /** Joins names with a '.' between each two. */
  function Join(parts: seq<string>): string
    requires parts != []
  {
    if |parts| == 1 then parts[0] else parts[0] + [Delimiter] + Join(parts[1..])
  }

  /** `Find` reporting no dot means there is none. */
  lemma NoneMeansNoDelimiter(s: string)
    requires Find(s, Delimiter, 0).None?
    ensures Delimiter !in s
  {
    forall j | 0 <= j < |s| ensures s[j] != Delimiter { }
  }

  /** The text before the first dot holds no dot. */
  lemma PrefixHasNoDelimiter(s: string, i: nat)
    requires Find(s, Delimiter, 0) == Some(i)
    ensures Delimiter !in s[..i]
  {
    forall j | 0 <= j < i ensures s[..i][j] != Delimiter { }
  }

  /** Joining the table names and the variable with '.' gives back the
      input. */
  lemma {:induction false} SplitJoin(s: string)
    ensures Join(Split(s).0 + [Split(s).1]) == s
    decreases |s|
  {
    var f := Find(s, Delimiter, 0);
    if f.Some? {
      var i := f.value;
      var rest := s[i + 1..];
      SplitJoin(rest);
      SplitUnfold(s, i);
      var tail := Split(rest).0 + [Split(rest).1];
      JoinCons(s[..i], tail);
      assert Split(s).0 + [Split(s).1] == [s[..i]] + tail;
      assert s == s[..i] + [Delimiter] + rest;
    }
  }

  /** Joining a first piece in front of more pieces puts a dot between. */
  lemma JoinCons(first: string, parts: seq<string>)
    requires parts != []
    ensures Join([first] + parts) == first + [Delimiter] + Join(parts)
  {
    assert ([first] + parts)[1..] == parts;
  }

  /** No table name and not the variable contains a '.', and there is one
      table name per '.' in the input. */
  lemma {:induction false} SplitPieces(s: string)
    ensures forall p :: p in Split(s).0 ==> Delimiter !in p
    ensures Delimiter !in Split(s).1
    ensures |Split(s).0| == multiset(s)[Delimiter]
    decreases |s|
  {
    var f := Find(s, Delimiter, 0);
    if f.None? {
      NoneMeansNoDelimiter(s);
    } else {
      var i := f.value;
      var rest := s[i + 1..];
      SplitPieces(rest);
      SplitUnfold(s, i);
      PrefixHasNoDelimiter(s, i);
      DelimiterCount(s, i);
    }
  }
  /** Cutting at the first dot: the dots of the name are that one plus
      those after it. */
  lemma DelimiterCount(s: string, i: nat)
    requires Find(s, Delimiter, 0) == Some(i)
    ensures multiset(s)[Delimiter] == multiset(s[i + 1..])[Delimiter] + 1
  {
    PrefixHasNoDelimiter(s, i);
    assert s == s[..i] + [Delimiter] + s[i + 1..];
    assert multiset(s) == multiset(s[..i]) + multiset([Delimiter]) + multiset(s[i + 1..]);
  }


  /** Names without '.' come back from splitting their join: the split is the
      inverse of `Join` on dot-free names. */
  lemma {:induction false} JoinSplit(parts: seq<string>)
    requires parts != []
    requires forall i :: 0 <= i < |parts| ==> Delimiter !in parts[i]
    ensures Split(Join(parts)) == (parts[..|parts| - 1], parts[|parts| - 1])
  {
    var s := Join(parts);
    if |parts| == 1 {
      assert forall j :: 0 <= j < |s| ==> s[j] in parts[0];
    } else {
      JoinSplit(parts[1..]);
      var head := parts[0];
      assert s == head + [Delimiter] + Join(parts[1..]);
      assert Find(s, Delimiter, 0) == Some(|head|) by {
        FindFirstDelimiter(head, Join(parts[1..]));
      }
      assert s[|head| + 1..] == Join(parts[1..]);
      assert s[..|head|] == head;
      assert [head] + parts[1..][..|parts| - 2] == parts[..|parts| - 1];
    }
  }

  /** In `head + "." + tail` with a dot-free `head`, the first dot follows
      `head`. */
  lemma FindFirstDelimiter(head: string, tail: string)
    requires Delimiter !in head
    ensures Find(head + [Delimiter] + tail, Delimiter, 0) == Some(|head|)
  {
    var s := head + [Delimiter] + tail;
    assert s[|head|] == Delimiter;
    assert forall j :: 0 <= j < |head| ==> s[j] == head[j];
  }

  /** An input without '.' gives no table names and the whole input as the
      variable name; an input with a '.' gives at least one table name. */
  lemma NoDelimiterNoTables(s: string)
    ensures Split(s).0 == [] <==> Delimiter !in s
    ensures Delimiter !in s ==> Split(s).1 == s
  {
    SplitPieces(s);
    if Delimiter !in s {
      assert forall j :: 0 <= j < |s| ==> s[j] in s;
    }
  }

  /** Why `__luaN_pushglobaltable` refuses a list of table names. */
  datatype NameError = EmptyNameList | EmptyName(index: nat)

  /** The table names are acceptable: there is at least one and none is
      empty. */
  predicate ValidTableNames(names: seq<string>) {
    names != [] && forall i :: 0 <= i < |names| ==> names[i] != ""
  }

  /** The checks at the top of `__luaN_pushglobaltable`: an empty list is
      refused first, then the first empty name, in order. */
  method CheckTableNames(names: seq<string>) returns (err: Option<NameError>)
    ensures err.None? <==> ValidTableNames(names)
    ensures names == [] ==> err == Some(EmptyNameList)
    ensures err.Some? && err.value.EmptyName? ==>
              && err.value.index < |names| && names[err.value.index] == ""
              && forall j :: 0 <= j < err.value.index ==> names[j] != ""
  {
    if names == [] {
      return Some(EmptyNameList);
    }
    var i := 0;
    while i < |names|
      invariant 0 <= i <= |names|
      invariant forall j :: 0 <= j < i ==> names[j] != ""
    {
      if names[i] == "" {
        return Some(EmptyName(i));
      }
      i := i + 1;
    }
    return None;
  }

  /** A name starting with '.' or holding ".." is refused by the checks on
      its table names. */
  lemma {:induction false} EmptyPieceRefused(s: string, i: nat)
    requires i < |s| && s[i] == Delimiter
    requires i == 0 || s[i - 1] == Delimiter
    ensures !ValidTableNames(Split(s).0)
    decreases |s|
  {
    var f := Find(s, Delimiter, 0);
    assert f.Some?;
    var d := f.value;
    var rest := s[d + 1..];
    if d == i {
      assert s[..d] == "";
      assert Split(s).0[0] == "";
    } else {
      assert d < i;
      if i - 1 == d {
        assert Find(rest, Delimiter, 0) == Some(0);
        assert Split(rest).0[0] == "";
        assert Split(s).0[1] == "";
      } else {
        assert rest[i - d - 1] == Delimiter && rest[i - d - 2] == Delimiter;
        EmptyPieceRefused(rest, i - d - 1);
        NoDelimiterNoTables(rest);
        assert rest[i - d - 1] in rest;
        assert Split(rest).0 != [];
        var k :| 0 <= k < |Split(rest).0| && Split(rest).0[k] == "";
        assert Split(s).0[k + 1] == "";
      }
    }
  }
}
