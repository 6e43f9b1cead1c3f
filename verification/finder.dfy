/** Linear scans over a query's roots and a root's joins: `findRoot` (first
    match), `findOrCreateRoot`, and `findJoinedType` (last match). A root is
    referred to by its position in the query's root list, which stands for
    the Java object reference the scans return. */
module Finder {
  import opened Wrappers
  import opened Criteria

  /** True when some root in `roots` has class `clazz`. */
  predicate HasRootOf(roots: seq<Root>, clazz: TypeToken) {
    exists i :: 0 <= i < |roots| && roots[i].javaType == clazz
  }

  /** `findRoot(query, clazz)`: the position of the FIRST root whose class is
      `clazz`, since the loop returns as soon as it finds one; `None` (Java
      `null`) when there is none. */
  function FindRoot(roots: seq<Root>, clazz: TypeToken): (r: Option<nat>)
    ensures r.None? <==> !HasRootOf(roots, clazz)
    ensures r.Some? ==> r.value < |roots| && roots[r.value].javaType == clazz
    ensures r.Some? ==> forall j :: 0 <= j < r.value ==> roots[j].javaType != clazz
  {
    if |roots| == 0 then None
    else if roots[0].javaType == clazz then Some(0)
    else
      match FindRoot(roots[1..], clazz)
      case None => None
      case Some(i) => Some(i + 1)
  }

  /** `findRoot(query)`: the first root of the query's own result type. */
  function FindResultRoot(q: Query): (r: Option<nat>)
    ensures r.None? <==> !HasRootOf(q.roots, q.resultType)
    ensures r.Some? ==> r.value < |q.roots| && q.roots[r.value].javaType == q.resultType
    ensures r.Some? ==> forall j :: 0 <= j < r.value ==> q.roots[j].javaType != q.resultType
  {
    FindRoot(q.roots, q.resultType)
  }

  /** Roots added after a match do not change what `findRoot` answers. */
  lemma {:induction false} FindRootIgnoresLaterRoots(roots: seq<Root>, more: seq<Root>, clazz: TypeToken)
    requires HasRootOf(roots, clazz)
    ensures FindRoot(roots + more, clazz) == FindRoot(roots, clazz)
  {
    var i := FindRoot(roots, clazz).value;
    assert (roots + more)[i] == roots[i];
  }

  /** `a` and `b` list roots of the same classes, in the same order. */
  predicate SameClasses(a: seq<Root>, b: seq<Root>) {
    |a| == |b| && forall i :: 0 <= i < |a| ==> a[i].javaType == b[i].javaType
  }

  /** `findRoot` looks only at the classes of the roots: two root lists with
      the same classes in the same order give the same answer. */
  lemma {:induction false} FindRootByClassesOnly(a: seq<Root>, b: seq<Root>, clazz: TypeToken)
    requires SameClasses(a, b)
    ensures FindRoot(a, clazz) == FindRoot(b, clazz)
    decreases |a|
  {
    if |a| > 0 && a[0].javaType != clazz {
      assert SameClasses(a[1..], b[1..]) by {
        assert forall i :: 0 <= i < |a| - 1 ==> a[1..][i] == a[i + 1] && b[1..][i] == b[i + 1];
      }
      FindRootByClassesOnly(a[1..], b[1..], clazz);
    }
  }

  /** `findOrCreateRoot`: the first root of class `clazz`, or a new bare root
      of that class appended to the query when there is none. */
  function FindOrCreateRoot(q: Query, clazz: TypeToken): (r: (Query, nat))
    ensures r.1 < |r.0.roots| && r.0.roots[r.1].javaType == clazz
    ensures HasRootOf(q.roots, clazz) ==> r.0 == q && Some(r.1) == FindRoot(q.roots, clazz)
    ensures !HasRootOf(q.roots, clazz) ==>
              r.0 == q.(roots := q.roots + [NewRoot(clazz)]) && r.1 == |q.roots|
  {
    match FindRoot(q.roots, clazz)
    case Some(i) => (q, i)
    case None => (q.(roots := q.roots + [NewRoot(clazz)]), |q.roots|)
  }

  /** After `findOrCreateRoot`, `findRoot` finds the returned root, so a
      second `findOrCreateRoot` adds nothing. */
  lemma FindOrCreateRootStable(q: Query, clazz: TypeToken)
    ensures var (q1, i) := FindOrCreateRoot(q, clazz);
            FindRoot(q1.roots, clazz) == Some(i) && FindOrCreateRoot(q1, clazz) == (q1, i)
  {
    var (q1, i) := FindOrCreateRoot(q, clazz);
    if !HasRootOf(q.roots, clazz) {
      assert q1.roots[i].javaType == clazz;
      assert HasRootOf(q1.roots, clazz);
    }
  }

  /** The loop of `findJoinedType` from position `k` on, `acc` being the
      match kept so far: the loop has no `break`, so a later match overwrites
      an earlier one. */
  function LastMatchFrom(joins: seq<Join>, matches: Join -> bool, k: nat, acc: Option<nat>): (r: Option<nat>)
    requires k <= |joins|
    requires acc.Some? ==> acc.value < k && matches(joins[acc.value])
    ensures r.Some? ==> r.value < |joins| && matches(joins[r.value])
    ensures forall i :: k <= i < |joins| && matches(joins[i]) ==> r.Some? && i <= r.value
    ensures r != acc ==> r.Some? && k <= r.value
    decreases |joins| - k
  {
    if k == |joins| then acc
    else LastMatchFrom(joins, matches, k + 1, if matches(joins[k]) then Some(k) else acc)
  }

  /** The position of the LAST join satisfying `matches`, or `None`. */
  function LastMatch(joins: seq<Join>, matches: Join -> bool): (r: Option<nat>)
    ensures r.None? <==> forall i :: 0 <= i < |joins| ==> !matches(joins[i])
    ensures r.Some? ==> r.value < |joins| && matches(joins[r.value])
    ensures r.Some? ==> forall i :: r.value < i < |joins| ==> !matches(joins[i])
  {
    LastMatchFrom(joins, matches, 0, None)
  }

  /** Java's `j.getJoinType().equals(joinClass)`: a `JoinType` constant is
      never equal to a `Class` object, whatever the two are. */
  predicate JoinTypeEqualsClass(kind: JoinKind, clazz: TypeToken) {
    false
  }

  /** `findJoinedType` as written. The root of `rootClass` is dereferenced
      without a check, so one must exist. Because the test compares a join
      kind with a class, no join ever matches and the answer is always
      `null`. */
  function FindJoinedType(q: Query, rootClass: TypeToken, joinClass: TypeToken): (r: Option<Join>)
    requires HasRootOf(q.roots, rootClass)
    ensures r.None?
  {
    var joins := q.roots[FindRoot(q.roots, rootClass).value].joins;
    match LastMatch(joins, (j: Join) => JoinTypeEqualsClass(j.kind, joinClass))
    case None => None
    case Some(i) => Some(joins[i])
  }

  /** `findJoinedType` as evidently intended: among the direct joins of the
      first root of `rootClass`, the last one whose joined entity class is
      `joinClass`. */
  function FindJoinedTypeCorrected(q: Query, rootClass: TypeToken, joinClass: TypeToken): (r: Option<Join>)
    requires HasRootOf(q.roots, rootClass)
    ensures var joins := q.roots[FindRoot(q.roots, rootClass).value].joins;
            && (r.None? <==> forall i :: 0 <= i < |joins| ==> joins[i].javaType != joinClass)
            && (r.Some? ==> exists i :: 0 <= i < |joins| && joins[i] == r.value
                              && forall k :: i < k < |joins| ==> joins[k].javaType != joinClass)
    ensures r.Some? ==> r.value.javaType == joinClass
  {
    var joins := q.roots[FindRoot(q.roots, rootClass).value].joins;
    match LastMatch(joins, (j: Join) => j.javaType == joinClass)
    case None => None
    case Some(i) => Some(joins[i])
  }

  /** A query whose `Order` root joins `items` of class `Item`: the code as
      written misses the join that the corrected scan finds. */
  lemma FindJoinedTypeMissesExistingJoin()
    ensures var items := Join("items", Inner, "Item", Some("i"), [], []);
            var q := NewQuery("Order", false).(roots := [Root("Order", Some("o"), [items], [])]);
            HasRootOf(q.roots, "Order")
            && FindJoinedType(q, "Order", "Item").None?
            && FindJoinedTypeCorrected(q, "Order", "Item") == Some(items)
  {
    var items := Join("items", Inner, "Item", Some("i"), [], []);
    var q := NewQuery("Order", false).(roots := [Root("Order", Some("o"), [items], [])]);
    assert HasRootOf(q.roots, "Order") by { assert q.roots[0].javaType == "Order"; }
    assert FindRoot(q.roots, "Order") == Some(0);
  }
}
