/** What a second copy of the same query does. The first copy writes every
    alias it generates back onto the source, so a second copy finds nothing
    left to name: it leaves the source as it is and builds the very same
    destination, whatever the counter. */
module Recopy {
  import opened Criteria
  import opened Copier

  /** Every join of the forest, at every depth, has an alias. */
  predicate JoinsNamed(js: seq<Join>)
    decreases js
  {
    forall i :: 0 <= i < |js| ==> js[i].alias.Some? && JoinsNamed(js[i].joins)
  }

  /** Every root of the list, and every join under it, has an alias. */
  predicate RootsNamed(roots: seq<Root>) {
    forall i :: 0 <= i < |roots| ==> roots[i].alias.Some? && JoinsNamed(roots[i].joins)
  }

  /** An aliased forest is fully named. */
  lemma {:induction false} AliasedJoinsNamed(s: seq<Join>, t: seq<Join>)
    requires JoinsAliased(s, t)
    ensures JoinsNamed(t)
    decreases s
  {
    forall i | 0 <= i < |t|
      ensures JoinsNamed(t[i].joins)
    {
      AliasedJoinsNamed(s[i].joins, t[i].joins);
    }
  }

  /** Aliasing a fully named forest changes nothing. */
  lemma {:induction false} NamedJoinsKept(s: seq<Join>, t: seq<Join>)
    requires JoinsAliased(s, t) && JoinsNamed(s)
    ensures t == s
    decreases s
  {
    forall i | 0 <= i < |s|
      ensures t[i] == s[i]
    {
      NamedJoinsKept(s[i].joins, t[i].joins);
    }
  }

  /** After a copy that does not skip the roots, the source's roots are
      fully named. */
  lemma CopyShapeNamesSource(from: Query, to: Query, copyFetches: bool, counter: nat)
    requires !SkipsRoots(from)
    ensures RootsNamed(CopyShape(from, to, copyFetches, counter).source.roots)
  {
    var r := CopyShape(from, to, copyFetches, counter);
    forall i | 0 <= i < |r.source.roots|
      ensures JoinsNamed(r.source.roots[i].joins)
    {
      AliasedJoinsNamed(from.roots[i].joins, r.source.roots[i].joins);
    }
  }

  /** Copying a fully named query leaves it unchanged. */
  lemma CopyShapeKeepsNamedSource(from: Query, to: Query, copyFetches: bool, counter: nat)
    requires RootsNamed(from.roots)
    ensures CopyShape(from, to, copyFetches, counter).source == from
  {
    var r := CopyShape(from, to, copyFetches, counter);
    if !SkipsRoots(from) {
      forall i | 0 <= i < |from.roots|
        ensures r.source.roots[i] == from.roots[i]
      {
        NamedJoinsKept(from.roots[i].joins, r.source.roots[i].joins);
      }
      assert r.source.roots == from.roots;
    }
  }

  /** Copying the updated source a second time, into the original
      destination value (not the destination the first copy produced) and
      with the same fetch flag, leaves the source as the first copy left it
      and builds the same destination, whatever the counter is. */
  lemma CopyShapeTwice(from: Query, to: Query, copyFetches: bool, c1: nat, c2: nat)
    ensures var r1 := CopyShape(from, to, copyFetches, c1);
            var r2 := CopyShape(r1.source, to, copyFetches, c2);
            r2.source == r1.source && r2.dest == r1.dest
  {
    var r1 := CopyShape(from, to, copyFetches, c1);
    if !SkipsRoots(from) {
      CopyShapeNamesSource(from, to, copyFetches, c1);
      CopyShapeKeepsNamedSource(r1.source, to, copyFetches, c2);
      var r2 := CopyShape(r1.source, to, copyFetches, c2);
      var n := |to.roots|;
      var d1 := r1.dest.roots[n..];
      var d2 := r2.dest.roots[n..];
      forall i | 0 <= i < |d1|
        ensures d2[i] == d1[i]
      {
      }
      assert d2 == d1;
      assert r1.dest.roots == r1.dest.roots[..n] + d1;
      assert r2.dest.roots == r2.dest.roots[..n] + d2;
      assert r2.dest.roots == r1.dest.roots;
    }
  }
}
