/** The three public query transformations: the row-count query, and the
    copies with and without the selection. All are built on `CopyShape`. */
module Transformer {
  import opened Wrappers
  import opened Criteria
  import opened Aliases
  import opened Finder
  import opened Copier

  /** Copied into a query without roots, the roots keep their classes. */
  lemma CopiedRootsKeepClasses(from: Query, to: Query, copyFetches: bool, r: QueryCopy)
    requires ShapeCopied(from, to, copyFetches, r) && !SkipsRoots(from) && to.roots == []
    ensures SameClasses(from.roots, r.dest.roots)
  {
    assert r.dest.roots[|to.roots|..] == r.dest.roots;
  }

  /** In the count query the first root of the source's result type is the
      copy of the source's first such root. When roots were skipped the model
      finds none, since its opaque `where` token brings in no roots (the
      roots EclipseLink derives from the predicate are not modelled). */
  lemma CountedRoot(from: Query, c: QueryCopy)
    requires ShapeCopied(from, NewQuery(LongType, from.eclipseLink), false, c)
    ensures FindRoot(c.dest.roots, from.resultType) ==
            if SkipsRoots(from) then None else FindRoot(from.roots, from.resultType)
  {
    if !SkipsRoots(from) {
      CopiedRootsKeepClasses(from, NewQuery(LongType, from.eclipseLink), false, c);
      FindRootByClassesOnly(from.roots, c.dest.roots, from.resultType);
    }
  }

  /** `countCriteria`: a new `Long` query over the same provider, with the
      source's shape copied without fetches, selecting `count` (or
      `countDistinct` when the source is distinct) of the first copied root
      of the source's result type. With roots skipped the model has no such
      root and counts over `null`; the roots EclipseLink derives from the
      `where` predicate are not modelled. */
  function CountCriteria(from: Query, counter: nat): (r: QueryCopy)
    ensures ShapeCopied(from, NewQuery(LongType, from.eclipseLink), false, r)
    ensures r.dest.orderList == []
    ensures r.dest.selection ==
            Some(Count(from.distinct, if SkipsRoots(from) then None else FindRoot(from.roots, from.resultType)))
    ensures counter <= ResetThreshold + 1 ==> r.counter <= ResetThreshold + 1
  {
    var to := NewQuery(LongType, from.eclipseLink);
    var c := CopyShape(from, to, false, counter);
    var selection := Some(Count(from.distinct, FindRoot(c.dest.roots, from.resultType)));
    CountedRoot(from, c);
    ShapeCopiedIgnoresOrderAndSelection(from, to, false, c, [], selection);
    QueryCopy(c.source, c.dest.(orderList := [], selection := selection), c.counter)
  }

  /** What the count query looks like: a `Long` query with the source's
      restrictions, no fetches on any root or join, no roots of its own when they were
      skipped (the roots EclipseLink derives from `where` are not modelled), and
      a counted root (when there is one) that is a root of the count query
      of the source's result type. */
  lemma CountQueryShape(from: Query, counter: nat)
    ensures var q := CountCriteria(from, counter).dest;
            && q.resultType == LongType
            && q.distinct == from.distinct
            && q.having == from.having && q.where == from.where
            && (forall i :: 0 <= i < |q.roots| ==>
                  q.roots[i].fetches == [] && JoinsFetchFree(q.roots[i].joins))
            && (SkipsRoots(from) ==> q.roots == [])
            && q.selection.Some? && q.selection.value.Count?
            && var root := q.selection.value.root;
               root.Some? ==> root.value < |q.roots| && q.roots[root.value].javaType == from.resultType
  {
    var r := CountCriteria(from, counter);
    var q := r.dest;
    if !SkipsRoots(from) {
      assert q.roots[0..] == q.roots;
      CopiedRootsKeepClasses(from, NewQuery(LongType, from.eclipseLink), false, r);
      forall i | 0 <= i < |q.roots|
        ensures JoinsFetchFree(q.roots[i].joins)
      {
        WithoutFetchesFetchFree(r.source.roots[i].joins);
      }
    }
  }

  /** `copyCriteriaNoSelection`: the shape with fetches, then the source's
      ordering replaces the destination's. The selection is left alone. */
  function CopyCriteriaNoSelection(from: Query, to: Query, counter: nat): (r: QueryCopy)
    ensures ShapeCopied(from, to, true, r)
    ensures r.dest.orderList == from.orderList
    ensures r.dest.selection == to.selection
    ensures counter <= ResetThreshold + 1 ==> r.counter <= ResetThreshold + 1
  {
    var c := CopyShape(from, to, true, counter);
    ShapeCopiedIgnoresOrderAndSelection(from, to, true, c, from.orderList, to.selection);
    QueryCopy(c.source, c.dest.(orderList := from.orderList), c.counter)
  }

  /** `copyCriteria`: the copy without selection, then the source's
      selection replaces the destination's. */
  function CopyCriteria(from: Query, to: Query, counter: nat): (r: QueryCopy)
    ensures ShapeCopied(from, to, true, r)
    ensures r.dest.orderList == from.orderList
    ensures r.dest.selection == from.selection
    ensures counter <= ResetThreshold + 1 ==> r.counter <= ResetThreshold + 1
  {
    var c := CopyCriteriaNoSelection(from, to, counter);
    ShapeCopiedIgnoresOrderAndSelection(from, to, true, c, from.orderList, from.selection);
    QueryCopy(c.source, c.dest.(selection := from.selection), c.counter)
  }

  /** Copying a query into a fresh query of the same result type and provider
      reproduces it in every part but the roots: grouping, distinct flag,
      restrictions, ordering and selection are all the source's, whether or
      not the roots are skipped. */
  lemma CopyCriteriaIntoFreshQuery(from: Query, counter: nat)
    ensures var r := CopyCriteria(from, NewQuery(from.resultType, from.eclipseLink), counter);
            r.dest == r.source.(roots := r.dest.roots)
  {
  }

  /** Copied into a query without roots, each root of the copy is rebuilt
      with the source root's class and (now set) alias, in the same order. */
  lemma CopyCriteriaRootsMirrorSource(from: Query, to: Query, counter: nat)
    requires !SkipsRoots(from) && to.roots == []
    ensures var r := CopyCriteria(from, to, counter);
            && |r.dest.roots| == |r.source.roots|
            && forall i :: 0 <= i < |r.dest.roots| ==>
                 r.dest.roots[i].javaType == r.source.roots[i].javaType
                 && r.dest.roots[i].alias == r.source.roots[i].alias
  {
    var r := CopyCriteria(from, to, counter);
    assert r.dest.roots[|to.roots|..] == r.dest.roots;
    assert RootsCopied(from.roots, r.source.roots, r.dest.roots, true);
  }

  /** The copy's result root sits where the source's does. */
  lemma CopyCriteriaKeepsResultRoot(from: Query, to: Query, counter: nat)
    requires !SkipsRoots(from) && to.roots == [] && to.resultType == from.resultType
    ensures FindResultRoot(CopyCriteria(from, to, counter).dest) == FindResultRoot(from)
  {
    var r := CopyCriteria(from, to, counter);
    CopiedRootsKeepClasses(from, to, true, r);
    FindRootByClassesOnly(from.roots, r.dest.roots, from.resultType);
  }
}
