/** The structural copier: `copyJoins`, the two `copyFetches` and
    `copyCriteriaWithoutSelectionAndOrder`. Aliases come from the alias
    generator, which also writes them back onto the SOURCE roots and joins,
    so every copy returns the updated source beside the destination and the
    counter. */
module Copier {
  import opened Wrappers
  import opened Criteria
  import opened Aliases

  /** `t` is the join forest `s` after aliasing: the same joins in the same
      order and nesting, each now carrying an alias, every alias `s` already
      had kept, and nothing else changed. */
  predicate JoinsAliased(s: seq<Join>, t: seq<Join>)
    decreases s
  {
    && |s| == |t|
    && forall i :: 0 <= i < |s| ==>
         && t[i].attribute == s[i].attribute
         && t[i].kind == s[i].kind
         && t[i].javaType == s[i].javaType
         && t[i].fetches == s[i].fetches
         && t[i].alias.Some?
         && (s[i].alias.Some? ==> t[i].alias == s[i].alias)
         && JoinsAliased(s[i].joins, t[i].joins)
  }

  /** The join forest `s` with the fetches of every join dropped. */
  function WithoutFetches(s: seq<Join>): seq<Join>
    decreases s
  {
    if |s| == 0 then []
    else [s[0].(joins := WithoutFetches(s[0].joins), fetches := [])] + WithoutFetches(s[1..])
  }

  /** No join anywhere in the forest carries a fetch. */
  predicate JoinsFetchFree(js: seq<Join>)
    decreases js
  {
    forall i :: 0 <= i < |js| ==> js[i].fetches == [] && JoinsFetchFree(js[i].joins)
  }

  /** Dropping the fetches leaves none anywhere in the forest. */
  lemma {:induction false} WithoutFetchesFetchFree(s: seq<Join>)
    ensures JoinsFetchFree(WithoutFetches(s))
    decreases s
  {
    if |s| > 0 {
      WithoutFetchesFetchFree(s[0].joins);
      WithoutFetchesFetchFree(s[1..]);
      var t := WithoutFetches(s);
      assert t == [s[0].(joins := WithoutFetches(s[0].joins), fetches := [])] + WithoutFetches(s[1..]);
      forall i | 0 <= i < |t|
        ensures t[i].fetches == [] && JoinsFetchFree(t[i].joins)
      {
        if i > 0 {
          assert t[i] == WithoutFetches(s[1..])[i - 1];
        }
      }
    }
  }

  datatype JoinsCopy = JoinsCopy(source: seq<Join>, dest: seq<Join>, counter: nat)

  /** `copyJoins`: for every join in order, a join on the same attribute with
      the same kind is created under the destination, given the source join's
      alias (generated if needed), and filled recursively. A join's own
      fetches are not copied. */
  function CopyJoins(js: seq<Join>, counter: nat): (r: JoinsCopy)
    ensures JoinsAliased(js, r.source)
    ensures r.dest == WithoutFetches(r.source)
    ensures counter <= ResetThreshold + 1 ==> r.counter <= ResetThreshold + 1
    decreases js
  {
    if |js| == 0 then JoinsCopy([], [], counter)
    else
      var j := js[0];
      var a := GetOrCreateAlias(j.alias, counter);
      var kids := CopyJoins(j.joins, a.counter);
      var rest := CopyJoins(js[1..], kids.counter);
      var src := j.(alias := Some(a.alias), joins := kids.source);
      var dst := Join(j.attribute, j.kind, j.javaType, Some(a.alias), kids.dest, []);
      JoinsCopy([src] + rest.source, [dst] + rest.dest, rest.counter)
  }

  /** `s` and `t` are the same fetch forest up to join kinds. */
  predicate SameFetchTree(s: seq<Fetch>, t: seq<Fetch>)
    decreases s
  {
    && |s| == |t|
    && forall i :: 0 <= i < |s| ==>
         t[i].attribute == s[i].attribute && SameFetchTree(s[i].fetches, t[i].fetches)
  }

  /** Every fetch in the forest is an inner fetch join. */
  predicate AllInner(fs: seq<Fetch>)
    decreases fs
  {
    forall i :: 0 <= i < |fs| ==> fs[i].kind == Inner && AllInner(fs[i].fetches)
  }

  /** Both `copyFetches`: every fetch is recreated by attribute name alone,
      which makes an inner fetch join, and filled recursively. No alias is
      involved. */
  function CopyFetches(fs: seq<Fetch>): (r: seq<Fetch>)
    ensures SameFetchTree(fs, r)
    ensures AllInner(r)
    decreases fs
  {
    if |fs| == 0 then []
    else [Fetch(fs[0].attribute, Inner, CopyFetches(fs[0].fetches))] + CopyFetches(fs[1..])
  }

  /** Two inner fetch forests of the same shape are equal. */
  lemma {:induction false} InnerFetchTreesEqual(s: seq<Fetch>, t: seq<Fetch>)
    requires SameFetchTree(s, t) && AllInner(s) && AllInner(t)
    ensures s == t
    decreases s
  {
    forall i | 0 <= i < |s|
      ensures s[i] == t[i]
    {
      InnerFetchTreesEqual(s[i].fetches, t[i].fetches);
    }
  }

  /** The fetch copy reproduces its source exactly when the source has only
      inner fetch joins; a left or right fetch comes out as an inner one. */
  lemma CopyFetchesExactIffInner(fs: seq<Fetch>)
    ensures CopyFetches(fs) == fs <==> AllInner(fs)
  {
    if AllInner(fs) {
      InnerFetchTreesEqual(fs, CopyFetches(fs));
    }
  }

  /** Copying a copied fetch forest changes nothing. */
  lemma CopyFetchesIdempotent(fs: seq<Fetch>)
    ensures CopyFetches(CopyFetches(fs)) == CopyFetches(fs)
  {
    CopyFetchesExactIffInner(CopyFetches(fs));
  }

  /** Root `s` became `s2` in the source and was copied as `d`: the source
      root only gained an alias and aliases on its joins, and the copy has the
      same class, that alias, the aliased join forest without join fetches,
      and the fetch copy when fetches are copied. */
  predicate RootCopied(s: Root, s2: Root, d: Root, copyFetches: bool) {
    && s2.javaType == s.javaType
    && s2.fetches == s.fetches
    && s2.alias.Some?
    && (s.alias.Some? ==> s2.alias == s.alias)
    && JoinsAliased(s.joins, s2.joins)
    && d.javaType == s.javaType
    && d.alias == s2.alias
    && d.joins == WithoutFetches(s2.joins)
    && d.fetches == (if copyFetches then CopyFetches(s.fetches) else [])
  }

  /** Root by root, `s` became `s2` and was copied as `d`. */
  predicate RootsCopied(s: seq<Root>, s2: seq<Root>, d: seq<Root>, copyFetches: bool) {
    && |s2| == |s|
    && |d| == |s|
    && forall i :: 0 <= i < |s| ==> RootCopied(s[i], s2[i], d[i], copyFetches)
  }

  datatype RootsCopy = RootsCopy(source: seq<Root>, dest: seq<Root>, counter: nat)

  /** Copying the first root and then the others copies them all. */
  lemma RootsCopiedCons(s: seq<Root>, h2: Root, t2: seq<Root>, hd: Root, td: seq<Root>, copyFetches: bool)
    requires |s| > 0
    requires RootCopied(s[0], h2, hd, copyFetches)
    requires RootsCopied(s[1..], t2, td, copyFetches)
    ensures RootsCopied(s, [h2] + t2, [hd] + td, copyFetches)
  {
    var s2, d := [h2] + t2, [hd] + td;
    forall i | 0 <= i < |s|
      ensures RootCopied(s[i], s2[i], d[i], copyFetches)
    {
      if i > 0 {
        assert s[i] == s[1..][i - 1] && s2[i] == t2[i - 1] && d[i] == td[i - 1];
      }
    }
  }

  /** The root loop of `copyCriteriaWithoutSelectionAndOrder`: one new root
      per source root, in order, each aliased before its joins are copied. */
  function CopyRoots(roots: seq<Root>, copyFetches: bool, counter: nat): (r: RootsCopy)
    ensures RootsCopied(roots, r.source, r.dest, copyFetches)
    ensures counter <= ResetThreshold + 1 ==> r.counter <= ResetThreshold + 1
    decreases |roots|
  {
    if |roots| == 0 then RootsCopy([], [], counter)
    else
      var root := roots[0];
      var a := GetOrCreateAlias(root.alias, counter);
      var joins := CopyJoins(root.joins, a.counter);
      var fetches := if copyFetches then CopyFetches(root.fetches) else [];
      var rest := CopyRoots(roots[1..], copyFetches, joins.counter);
      var src := root.(alias := Some(a.alias), joins := joins.source);
      var dst := Root(root.javaType, Some(a.alias), joins.dest, fetches);
      RootsCopiedCons(roots, src, rest.source, dst, rest.dest, copyFetches);
      RootsCopy([src] + rest.source, [dst] + rest.dest, rest.counter)
  }

  /** With EclipseLink and a where predicate, roots are not copied: that
      provider derives them from the predicate's paths when the predicate is
      set on the destination. The model's predicates are opaque tokens, so
      that derivation is not modelled. */
  predicate SkipsRoots(from: Query) {
    from.eclipseLink && from.where.Some?
  }

  datatype QueryCopy = QueryCopy(source: Query, dest: Query, counter: nat)

  /** What every copy variant does to the shape: the source changes only in
      its roots' aliases; the destination gains a copy of each source root
      after its own roots (none when roots are skipped), takes the source's
      grouping and distinct flag, takes its having and where predicates when
      they are set, and keeps its own result type and provider. */
  predicate ShapeCopied(from: Query, to: Query, copyFetches: bool, r: QueryCopy) {
    && r.source == from.(roots := r.source.roots)
    && (SkipsRoots(from) ==> r.source == from && r.dest.roots == to.roots)
    && (!SkipsRoots(from) ==>
          && |r.dest.roots| >= |to.roots|
          && r.dest.roots[..|to.roots|] == to.roots
          && RootsCopied(from.roots, r.source.roots, r.dest.roots[|to.roots|..], copyFetches))
    && r.dest.groupList == from.groupList
    && r.dest.distinct == from.distinct
    && r.dest.having == (if from.having.Some? then from.having else to.having)
    && r.dest.where == (if from.where.Some? then from.where else to.where)
    && r.dest.resultType == to.resultType
    && r.dest.eclipseLink == to.eclipseLink
  }

  /** The shape says nothing about the ordering and the selection, so the
      copy variants may set those afterwards. */
  lemma ShapeCopiedIgnoresOrderAndSelection(
    from: Query, to: Query, copyFetches: bool, c: QueryCopy, order: seq<Token>, selection: Option<Selection>)
    requires ShapeCopied(from, to, copyFetches, c)
    ensures ShapeCopied(from, to, copyFetches,
                        QueryCopy(c.source, c.dest.(orderList := order, selection := selection), c.counter))
  {
  }

  /** `copyCriteriaWithoutSelectionAndOrder`: copies the shape and leaves the
      destination's ordering and selection alone. */
  function CopyShape(from: Query, to: Query, copyFetches: bool, counter: nat): (r: QueryCopy)
    ensures ShapeCopied(from, to, copyFetches, r)
    ensures r.dest.orderList == to.orderList
    ensures r.dest.selection == to.selection
    ensures SkipsRoots(from) ==> r.counter == counter
    ensures counter <= ResetThreshold + 1 ==> r.counter <= ResetThreshold + 1
  {
    var copied :=
      if SkipsRoots(from) then RootsCopy(from.roots, [], counter)
      else CopyRoots(from.roots, copyFetches, counter);
    var dest := to.(
      roots := to.roots + copied.dest,
      groupList := from.groupList,
      distinct := from.distinct,
      having := if from.having.Some? then from.having else to.having,
      where := if from.where.Some? then from.where else to.where);
    QueryCopy(from.(roots := copied.source), dest, copied.counter)
  }
}
