/** Python's list order, and `sorted` as the module-layering preflight uses it.

    Strings compare by code point and lists compare element by element, so one
    lexicographic construction serves both: once over characters (module
    names) and once over names (the sorted members of a component). */
module Orders {

  type Less<!T> = (T, T) -> bool

  ghost predicate StrictTotal<T(!new)>(less: Less<T>) {
    && (forall x :: !less(x, x))
    && (forall x, y, z :: less(x, y) && less(y, z) ==> less(x, z))
    && (forall x, y :: less(x, y) || less(y, x) || x == y)
  }

  predicate CharLess(a: char, b: char) { a < b }

  /** List comparison: the first difference decides, a proper prefix is smaller. */
  predicate ListLess<T(==)>(less: Less<T>, a: seq<T>, b: seq<T>) {
    if b == [] then false
    else if a == [] then true
    else if a[0] == b[0] then ListLess(less, a[1..], b[1..])
    else less(a[0], b[0])
  }

  predicate NameLess(a: string, b: string) { ListLess(CharLess, a, b) }

  predicate NamesLess(a: seq<string>, b: seq<string>) { ListLess(NameLess, a, b) }

  lemma {:induction false} ListLessIrreflexive<T(!new)>(less: Less<T>, a: seq<T>)
    ensures !ListLess(less, a, a)
  {
    if a != [] { ListLessIrreflexive(less, a[1..]); }
  }

  lemma {:induction false} ListLessTransitive<T(!new)>(less: Less<T>, a: seq<T>, b: seq<T>, c: seq<T>)
    requires StrictTotal(less)
    requires ListLess(less, a, b) && ListLess(less, b, c)
    ensures ListLess(less, a, c)
  {
    if a != [] && b != [] && c != [] && a[0] == b[0] && b[0] == c[0] {
      ListLessTransitive(less, a[1..], b[1..], c[1..]);
    }
  }

  lemma {:induction false} ListLessTotal<T(!new)>(less: Less<T>, a: seq<T>, b: seq<T>)
    requires StrictTotal(less)
    ensures ListLess(less, a, b) || ListLess(less, b, a) || a == b
  {
    if a != [] && b != [] && a[0] == b[0] {
      ListLessTotal(less, a[1..], b[1..]);
      assert a == [a[0]] + a[1..] && b == [b[0]] + b[1..];
    }
  }

  lemma NameLessStrictTotal()
    ensures StrictTotal(NameLess)
  {
    forall x: string ensures !NameLess(x, x) { ListLessIrreflexive(CharLess, x); }
    forall x: string, y: string, z: string | NameLess(x, y) && NameLess(y, z) ensures NameLess(x, z) {
      ListLessTransitive(CharLess, x, y, z);
    }
    forall x: string, y: string ensures NameLess(x, y) || NameLess(y, x) || x == y {
      ListLessTotal(CharLess, x, y);
    }
  }

  lemma NamesLessStrictTotal()
    ensures StrictTotal(NamesLess)
  {
    NameLessStrictTotal();
    forall x: seq<string> ensures !NamesLess(x, x) { ListLessIrreflexive(NameLess, x); }
    forall x: seq<string>, y: seq<string>, z: seq<string> | NamesLess(x, y) && NamesLess(y, z) ensures NamesLess(x, z) {
      ListLessTransitive(NameLess, x, y, z);
    }
    forall x: seq<string>, y: seq<string> ensures NamesLess(x, y) || NamesLess(y, x) || x == y {
      ListLessTotal(NameLess, x, y);
    }
  }

  ghost predicate Increasing<T(!new)>(less: Less<T>, s: seq<T>) {
    forall i, j :: 0 <= i < j < |s| ==> less(s[i], s[j])
  }

  ghost predicate SortedListing<T(!new)>(less: Less<T>, s: seq<T>, elements: set<T>) {
    && Increasing(less, s)
    && (forall x :: x in s <==> x in elements)
  }

  /** A set has at most one increasing listing, so `sorted` is a function of the set. */
  lemma {:induction false} SortedListingUnique<T(!new)>(less: Less<T>, a: seq<T>, b: seq<T>, elements: set<T>)
    requires StrictTotal(less)
    requires SortedListing(less, a, elements) && SortedListing(less, b, elements)
    ensures a == b
    decreases |a|
  {
    assert forall i :: 0 <= i < |b| ==> b[i] in b;
    assert forall i :: 0 <= i < |a| ==> a[i] in a;
    if a != [] {
      assert a[0] in elements;
      SameFirst(less, a, b, elements);
      var rest := elements - {a[0]};
      RestListing(less, a, elements);
      RestListing(less, b, elements);
      SortedListingUnique(less, a[1..], b[1..], rest);
      assert a == [a[0]] + a[1..] && b == [b[0]] + b[1..];
    }
  }

  lemma SameFirst<T(!new)>(less: Less<T>, a: seq<T>, b: seq<T>, elements: set<T>)
    requires StrictTotal(less) && a != []
    requires SortedListing(less, a, elements) && SortedListing(less, b, elements)
    ensures b != [] && a[0] == b[0]
  {
    assert a[0] in a && a[0] in b;
    var i :| 0 <= i < |b| && b[i] == a[0];
    assert less(b[0], a[0]) || i == 0;
    assert b[0] in b && b[0] in a;
    var j :| 0 <= j < |a| && a[j] == b[0];
    assert less(a[0], b[0]) || j == 0;
  }

  lemma RestListing<T(!new)>(less: Less<T>, a: seq<T>, elements: set<T>)
    requires StrictTotal(less) && a != [] && SortedListing(less, a, elements)
    ensures SortedListing(less, a[1..], elements - {a[0]})
  {
    forall x ensures x in a[1..] <==> x in elements - {a[0]} {
      if x in a[1..] {
        var i :| 0 <= i < |a[1..]| && a[1..][i] == x;
        assert less(a[0], a[i + 1]);
        assert a[i + 1] in a;
      }
      if x in elements && x != a[0] {
        assert x in a;
        var i :| 0 <= i < |a| && a[i] == x;
        assert a[1..][i - 1] == x;
      }
    }
  }

  predicate Least(names: set<string>, x: string) {
    x in names && forall y :: y in names ==> y == x || NameLess(x, y)
  }

  lemma LeastOfTwo(names: set<string>, x: string, y: string)
    requires StrictTotal(NameLess) && y in names && Least(names - {y}, x)
    ensures Least(names, y) || Least(names, x)
  {
    if NameLess(y, x) {
      forall z | z in names ensures z == y || NameLess(y, z) {
        if z != y { assert z == x || NameLess(x, z); }
      }
    } else {
      forall z | z in names ensures z == x || NameLess(x, z) {
        if z != y { assert z in names - {y}; }
      }
    }
  }

  lemma {:induction false} LeastExists(names: set<string>)
    requires names != {}
    ensures exists x :: Least(names, x)
    decreases |names|
  {
    NameLessStrictTotal();
    var y :| y in names;
    var rest := names - {y};
    if rest == {} {
      assert names == {y};
      assert Least(names, y);
    } else {
      LeastExists(rest);
      var x :| Least(rest, x);
      LeastOfTwo(names, x, y);
    }
  }

  /** `sorted(names)` for a set of module names. */
  function Sorted(names: set<string>): (r: seq<string>)
    ensures SortedListing(NameLess, r, names)
  {
    if names == {} then [] else
      LeastExists(names);
      NameLessStrictTotal();
      var x :| Least(names, x);
      var rest := Sorted(names - {x});
      assert forall i :: 0 <= i < |rest| ==> rest[i] in rest;
      [x] + rest
  }

  /** The key order of `sorted(components, key=lambda component: sorted(component))`. */
  predicate ByMembers(c: set<string>, d: set<string>) { NamesLess(Sorted(c), Sorted(d)) }

  lemma ByMembersStrictTotal()
    ensures StrictTotal(ByMembers)
  {
    NamesLessStrictTotal();
    forall c: set<string>, d: set<string> | Sorted(c) == Sorted(d) ensures c == d {
      forall x ensures x in c <==> x in d { assert x in Sorted(c) <==> x in c; }
    }
  }

  function Insert(s: seq<set<string>>, c: set<string>): seq<set<string>> {
    if s == [] || ByMembers(c, s[0]) then [c] + s else [s[0]] + Insert(s[1..], c)
  }

  function SortComponents(components: seq<set<string>>): seq<set<string>> {
    if components == [] then [] else Insert(SortComponents(components[1..]), components[0])
  }

  lemma {:induction false} InsertMembers(s: seq<set<string>>, c: set<string>)
    ensures forall d :: d in Insert(s, c) <==> d == c || d in s
  {
    if s != [] && !ByMembers(c, s[0]) {
      InsertMembers(s[1..], c);
      assert s == [s[0]] + s[1..];
    }
  }

  lemma {:induction false} InsertIncreasing(s: seq<set<string>>, c: set<string>)
    requires Increasing(ByMembers, s) && c !in s
    ensures Increasing(ByMembers, Insert(s, c))
  {
    ByMembersStrictTotal();
    if s == [] {
    } else if ByMembers(c, s[0]) {
      assert forall j :: 0 < j < |s| ==> ByMembers(s[0], s[j]);
    } else {
      assert s[0] in s;
      assert s == [s[0]] + s[1..];
      InsertIncreasing(s[1..], c);
      InsertMembers(s[1..], c);
      var r := Insert(s[1..], c);
      forall j | 0 <= j < |r| ensures ByMembers(s[0], r[j]) {
        assert r[j] in r;
        if r[j] != c {
          var k :| 0 <= k < |s[1..]| && s[1..][k] == r[j];
          assert s[k + 1] == r[j];
        }
      }
    }
  }

  /** Sorting distinct components keeps the members and orders them by key. */
  lemma {:induction false} SortComponentsSorts(components: seq<set<string>>)
    requires forall i, j :: 0 <= i < j < |components| ==> components[i] != components[j]
    ensures forall c :: c in SortComponents(components) <==> c in components
    ensures Increasing(ByMembers, SortComponents(components))
  {
    if components != [] {
      var rest := components[1..];
      assert components == [components[0]] + rest;
      SortComponentsSorts(rest);
      assert components[0] !in rest;
      InsertMembers(SortComponents(rest), components[0]);
      InsertIncreasing(SortComponents(rest), components[0]);
    }
  }
}
