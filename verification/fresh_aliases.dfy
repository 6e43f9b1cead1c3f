/** How many aliases a copy generates, and which. */
module FreshAliases {
  import opened Wrappers
  import opened Criteria
  import opened Aliases
  import opened Copier

  /** The number of joins in the forest that have no alias yet. */
  function UnaliasedJoins(js: seq<Join>): nat
    decreases js
  {
    if |js| == 0 then 0
    else Demand(js[0].alias) + UnaliasedJoins(js[0].joins) + UnaliasedJoins(js[1..])
  }

  /** How many aliases a node with this alias makes the generator issue. */
  function Demand(alias: Option<string>): nat {
    if alias.None? then 1 else 0
  }

  lemma JoinsAliasedTail(s: seq<Join>, t: seq<Join>)
    requires |s| > 0 && JoinsAliased(s, t)
    ensures JoinsAliased(s[1..], t[1..])
  {
    assert forall i :: 0 <= i < |s| - 1 ==> s[1..][i] == s[i + 1] && t[1..][i] == t[i + 1];
  }

  /** The aliases that the forest `t` carries where `s` had none, in the
      order the copy visits the joins (a join before its children, children
      before later siblings). */
  function NewJoinAliases(s: seq<Join>, t: seq<Join>): seq<string>
    requires JoinsAliased(s, t)
    decreases s
  {
    if |s| == 0 then []
    else
      JoinsAliasedTail(s, t);
      GainedAlias(s[0].alias, t[0].alias)
      + NewJoinAliases(s[0].joins, t[0].joins)
      + NewJoinAliases(s[1..], t[1..])
  }

  /** `s` lists the aliases generated from counter values `c`, `c + 1`, ...
      in that order. */
  predicate IsGeneratedRun(s: seq<string>, c: nat) {
    forall i :: 0 <= i < |s| ==> s[i] == GeneratedAlias(c + i)
  }

  /** Three runs that continue each other make one run. */
  lemma GeneratedRunChain(x: seq<string>, y: seq<string>, z: seq<string>, c0: nat, c1: nat, c2: nat)
    requires IsGeneratedRun(x, c0)
    requires IsGeneratedRun(y, c1) && c1 == c0 + |x|
    requires IsGeneratedRun(z, c2) && c2 == c1 + |y|
    ensures IsGeneratedRun(x + y + z, c0)
  {
    var s := x + y + z;
    forall i | 0 <= i < |s|
      ensures s[i] == GeneratedAlias(c0 + i)
    {
      if i < |x| {
        assert s[i] == x[i];
      } else if i < |x| + |y| {
        assert s[i] == y[i - |x|];
      } else {
        assert s[i] == z[i - |x| - |y|];
      }
    }
  }

  /** The alias a node gained: its new alias if it had none before. */
  function GainedAlias(before: Option<string>, after: Option<string>): seq<string> {
    if before.None? && after.Some? then [after.value] else []
  }

  /** One node's request: below the threshold it generates an alias exactly
      when the node had none, from the current counter value, and advances
      the counter by that much. */
  lemma GainedAliasStep(alias: Option<string>, counter: nat)
    requires counter + Demand(alias) <= ResetThreshold
    ensures var a := GetOrCreateAlias(alias, counter);
            var x := GainedAlias(alias, Some(a.alias));
            && a.counter == counter + Demand(alias)
            && |x| == Demand(alias)
            && IsGeneratedRun(x, counter)
  {
  }

  /** One step of `CopyJoins` on a non-empty forest, spelled out. */
  lemma CopyJoinsStep(js: seq<Join>, counter: nat)
    requires |js| > 0
    ensures var r := CopyJoins(js, counter);
            var a := GetOrCreateAlias(js[0].alias, counter);
            var kids := CopyJoins(js[0].joins, a.counter);
            var rest := CopyJoins(js[1..], kids.counter);
            && r.source[0] == js[0].(alias := Some(a.alias), joins := kids.source)
            && r.source[1..] == rest.source
            && r.counter == rest.counter
  {
    var r := CopyJoins(js, counter);
    var a := GetOrCreateAlias(js[0].alias, counter);
    var kids := CopyJoins(js[0].joins, a.counter);
    var rest := CopyJoins(js[1..], kids.counter);
    assert r.source == [js[0].(alias := Some(a.alias), joins := kids.source)] + rest.source;
  }

  /** The counter advances by one per unaliased join, as long as it stays at
      or below the reset threshold. */
  lemma {:induction false} CopyJoinsCounter(js: seq<Join>, counter: nat)
    requires counter + UnaliasedJoins(js) <= ResetThreshold
    ensures CopyJoins(js, counter).counter == counter + UnaliasedJoins(js)
    decreases js
  {
    if |js| > 0 {
      var a := GetOrCreateAlias(js[0].alias, counter);
      CopyJoinsCounter(js[0].joins, a.counter);
      var kids := CopyJoins(js[0].joins, a.counter);
      CopyJoinsCounter(js[1..], kids.counter);
      CopyJoinsStep(js, counter);
    }
  }

  /** Under the same condition, the copy generates one alias per unaliased
      join, from consecutive counter values, in the order it visits the
      joins; in particular no two of them are equal. */
  lemma {:induction false} CopyJoinsGeneratesConsecutive(js: seq<Join>, counter: nat)
    requires counter + UnaliasedJoins(js) <= ResetThreshold
    ensures var made := NewJoinAliases(js, CopyJoins(js, counter).source);
            && |made| == UnaliasedJoins(js)
            && IsGeneratedRun(made, counter)
    decreases js
  {
    if |js| > 0 {
      var a := GetOrCreateAlias(js[0].alias, counter);
      var kids := CopyJoins(js[0].joins, a.counter);
      var rest := CopyJoins(js[1..], kids.counter);
      var t := CopyJoins(js, counter).source;
      CopyJoinsGeneratesConsecutive(js[0].joins, a.counter);
      CopyJoinsCounter(js[0].joins, a.counter);
      CopyJoinsGeneratesConsecutive(js[1..], kids.counter);
      CopyJoinsStep(js, counter);
      GainedAliasStep(js[0].alias, counter);
      var x := GainedAlias(js[0].alias, t[0].alias);
      var y := NewJoinAliases(js[0].joins, kids.source);
      var z := NewJoinAliases(js[1..], rest.source);
      assert NewJoinAliases(js, t) == x + y + z;
      GeneratedRunChain(x, y, z, counter, a.counter, kids.counter);
    }
  }

  /** The number of roots and joins of the query that have no alias yet. */
  function UnaliasedRoots(roots: seq<Root>): nat
    decreases |roots|
  {
    if |roots| == 0 then 0
    else Demand(roots[0].alias) + UnaliasedJoins(roots[0].joins) + UnaliasedRoots(roots[1..])
  }

  /** `t` has the join forests of `s`, aliased. */
  predicate RootJoinsAliased(s: seq<Root>, t: seq<Root>) {
    |s| == |t| && forall i :: 0 <= i < |s| ==> JoinsAliased(s[i].joins, t[i].joins)
  }

  /** The root loop aliases every join under every root. */
  lemma CopyRootsAliasesJoins(roots: seq<Root>, copyFetches: bool, counter: nat)
    ensures RootJoinsAliased(roots, CopyRoots(roots, copyFetches, counter).source)
  {
    var t := CopyRoots(roots, copyFetches, counter).source;
    assert forall i :: 0 <= i < |roots| ==> RootCopied(roots[i], t[i], CopyRoots(roots, copyFetches, counter).dest[i], copyFetches);
  }

  /** The aliases the roots `t` and their joins carry where `s` had none, in
      the order the copy visits them. */
  function NewRootAliases(s: seq<Root>, t: seq<Root>): seq<string>
    requires RootJoinsAliased(s, t)
    decreases |s|
  {
    if |s| == 0 then []
    else
      assert RootJoinsAliased(s[1..], t[1..]) by {
        assert forall i :: 0 <= i < |s| - 1 ==> s[1..][i] == s[i + 1] && t[1..][i] == t[i + 1];
      }
      GainedAlias(s[0].alias, t[0].alias)
      + NewJoinAliases(s[0].joins, t[0].joins)
      + NewRootAliases(s[1..], t[1..])
  }

  /** One step of `CopyRoots` on a non-empty root list, spelled out. */
  lemma CopyRootsStep(roots: seq<Root>, copyFetches: bool, counter: nat)
    requires |roots| > 0
    ensures var r := CopyRoots(roots, copyFetches, counter);
            var a := GetOrCreateAlias(roots[0].alias, counter);
            var joins := CopyJoins(roots[0].joins, a.counter);
            var rest := CopyRoots(roots[1..], copyFetches, joins.counter);
            && r.source[0] == roots[0].(alias := Some(a.alias), joins := joins.source)
            && r.source[1..] == rest.source
            && r.counter == rest.counter
  {
    var r := CopyRoots(roots, copyFetches, counter);
    var a := GetOrCreateAlias(roots[0].alias, counter);
    var joins := CopyJoins(roots[0].joins, a.counter);
    var rest := CopyRoots(roots[1..], copyFetches, joins.counter);
    assert r.source == [roots[0].(alias := Some(a.alias), joins := joins.source)] + rest.source;
  }

  /** Copying the roots advances the counter by one per unaliased root or
      join, as long as it stays at or below the reset threshold. */
  lemma {:induction false} CopyRootsCounter(roots: seq<Root>, copyFetches: bool, counter: nat)
    requires counter + UnaliasedRoots(roots) <= ResetThreshold
    ensures CopyRoots(roots, copyFetches, counter).counter == counter + UnaliasedRoots(roots)
    decreases |roots|
  {
    if |roots| > 0 {
      var a := GetOrCreateAlias(roots[0].alias, counter);
      CopyJoinsCounter(roots[0].joins, a.counter);
      var joins := CopyJoins(roots[0].joins, a.counter);
      CopyRootsCounter(roots[1..], copyFetches, joins.counter);
      CopyRootsStep(roots, copyFetches, counter);
    }
  }

  /** Under the same condition, the aliases generated for roots and joins
      come from consecutive counter values, in the order the copy visits the
      nodes. */
  lemma {:induction false} CopyRootsGeneratesConsecutive(roots: seq<Root>, copyFetches: bool, counter: nat)
    requires counter + UnaliasedRoots(roots) <= ResetThreshold
    ensures var made := NewRootAliases(roots, CopyRoots(roots, copyFetches, counter).source);
            && |made| == UnaliasedRoots(roots)
            && IsGeneratedRun(made, counter)
    decreases |roots|
  {
    if |roots| > 0 {
      var a := GetOrCreateAlias(roots[0].alias, counter);
      var joins := CopyJoins(roots[0].joins, a.counter);
      var rest := CopyRoots(roots[1..], copyFetches, joins.counter);
      var t := CopyRoots(roots, copyFetches, counter).source;
      CopyJoinsCounter(roots[0].joins, a.counter);
      CopyJoinsGeneratesConsecutive(roots[0].joins, a.counter);
      CopyRootsGeneratesConsecutive(roots[1..], copyFetches, joins.counter);
      CopyRootsStep(roots, copyFetches, counter);
      GainedAliasStep(roots[0].alias, counter);
      var x := GainedAlias(roots[0].alias, t[0].alias);
      var y := NewJoinAliases(roots[0].joins, joins.source);
      var z := NewRootAliases(roots[1..], rest.source);
      assert NewRootAliases(roots, t) == x + y + z;
      GeneratedRunChain(x, y, z, counter, a.counter, joins.counter);
    }
  }

  /** What serving a list of alias requests produces: the aliases generated,
      in order, and the counter afterwards. */
  datatype Served = Served(made: seq<string>, counter: nat)

  /** Serves the requests of nodes whose current aliases are `requests`, one
      after the other, from `counter`. */
  function Serve(requests: seq<Option<string>>, counter: nat): Served
    decreases |requests|
  {
    if |requests| == 0 then Served([], counter)
    else
      var a := GetOrCreateAlias(requests[0], counter);
      var rest := Serve(requests[1..], a.counter);
      Served(GainedAlias(requests[0], Some(a.alias)) + rest.made, rest.counter)
  }

  /** Serving two lists one after the other is serving their concatenation. */
  lemma {:induction false} ServeAppend(xs: seq<Option<string>>, ys: seq<Option<string>>, counter: nat)
    ensures var first := Serve(xs, counter);
            var second := Serve(ys, first.counter);
            Serve(xs + ys, counter) == Served(first.made + second.made, second.counter)
    decreases |xs|
  {
    if |xs| == 0 {
      assert xs + ys == ys;
    } else {
      assert (xs + ys)[0] == xs[0] && (xs + ys)[1..] == xs[1..] + ys;
      var a := GetOrCreateAlias(xs[0], counter);
      ServeAppend(xs[1..], ys, a.counter);
      var tail := Serve(xs[1..], a.counter);
      ConcatAssoc(GainedAlias(xs[0], Some(a.alias)), tail.made, Serve(ys, tail.counter).made);
    }
  }

  lemma ConcatAssoc(a: seq<string>, b: seq<string>, c: seq<string>)
    ensures a + (b + c) == (a + b) + c
  {
  }

  /** The current aliases of a join forest in the order the copy visits the
      joins: a join, then its children, then its later siblings. */
  function JoinRequests(js: seq<Join>): seq<Option<string>>
    decreases js
  {
    if |js| == 0 then []
    else [js[0].alias] + JoinRequests(js[0].joins) + JoinRequests(js[1..])
  }

  /** The aliases one step of `CopyJoins` adds: the first join's own, then
      those in its children, then those in its later siblings. */
  lemma CopyJoinsAliasesStep(js: seq<Join>, counter: nat)
    requires |js| > 0
    ensures var a := GetOrCreateAlias(js[0].alias, counter);
            var kids := CopyJoins(js[0].joins, a.counter);
            var rest := CopyJoins(js[1..], kids.counter);
            && CopyJoins(js, counter).counter == rest.counter
            && NewJoinAliases(js, CopyJoins(js, counter).source) ==
               GainedAlias(js[0].alias, Some(a.alias))
               + NewJoinAliases(js[0].joins, kids.source)
               + NewJoinAliases(js[1..], rest.source)
  {
    CopyJoinsStep(js, counter);
  }

  /** Copying a join forest serves the requests of its joins in visiting
      order: it generates the same aliases and leaves the same counter. */
  lemma {:induction false} CopyJoinsServes(js: seq<Join>, counter: nat)
    ensures var r := CopyJoins(js, counter);
            var served := Serve(JoinRequests(js), counter);
            NewJoinAliases(js, r.source) == served.made && r.counter == served.counter
    decreases js
  {
    if |js| > 0 {
      var a := GetOrCreateAlias(js[0].alias, counter);
      CopyJoinsServes(js[0].joins, a.counter);
      var kids := CopyJoins(js[0].joins, a.counter);
      CopyJoinsServes(js[1..], kids.counter);
      CopyJoinsAliasesStep(js, counter);
      var head := [js[0].alias];
      assert Serve(head, counter) == Served(GainedAlias(js[0].alias, Some(a.alias)), a.counter);
      ServeAppend(head, JoinRequests(js[0].joins), counter);
      ServeAppend(head + JoinRequests(js[0].joins), JoinRequests(js[1..]), counter);
    }
  }

  /** The current aliases of the roots and their joins in the order the copy
      visits them. */
  function RootRequests(roots: seq<Root>): seq<Option<string>>
    decreases |roots|
  {
    if |roots| == 0 then []
    else [roots[0].alias] + JoinRequests(roots[0].joins) + RootRequests(roots[1..])
  }

  /** The aliases one step of `CopyRoots` adds: the first root's own, then
      those in its joins, then those in the later roots. */
  lemma CopyRootsAliasesStep(roots: seq<Root>, copyFetches: bool, counter: nat)
    requires |roots| > 0
    ensures var a := GetOrCreateAlias(roots[0].alias, counter);
            var joins := CopyJoins(roots[0].joins, a.counter);
            var rest := CopyRoots(roots[1..], copyFetches, joins.counter);
            && CopyRoots(roots, copyFetches, counter).counter == rest.counter
            && NewRootAliases(roots, CopyRoots(roots, copyFetches, counter).source) ==
               GainedAlias(roots[0].alias, Some(a.alias))
               + NewJoinAliases(roots[0].joins, joins.source)
               + NewRootAliases(roots[1..], rest.source)
  {
    CopyRootsStep(roots, copyFetches, counter);
  }

  /** Copying the roots serves their requests, and those of their joins, in
      visiting order. */
  lemma {:induction false} CopyRootsServes(roots: seq<Root>, copyFetches: bool, counter: nat)
    ensures var r := CopyRoots(roots, copyFetches, counter);
            var served := Serve(RootRequests(roots), counter);
            NewRootAliases(roots, r.source) == served.made && r.counter == served.counter
    decreases |roots|
  {
    if |roots| > 0 {
      var a := GetOrCreateAlias(roots[0].alias, counter);
      CopyJoinsServes(roots[0].joins, a.counter);
      var joins := CopyJoins(roots[0].joins, a.counter);
      CopyRootsServes(roots[1..], copyFetches, joins.counter);
      CopyRootsAliasesStep(roots, copyFetches, counter);
      var head := [roots[0].alias];
      assert Serve(head, counter) == Served(GainedAlias(roots[0].alias, Some(a.alias)), a.counter);
      ServeAppend(head, JoinRequests(roots[0].joins), counter);
      ServeAppend(head + JoinRequests(roots[0].joins), RootRequests(roots[1..]), counter);
    }
  }

  /** The number of requests in the list from nodes without an alias. */
  function Unaliased(requests: seq<Option<string>>): nat
    decreases |requests|
  {
    if |requests| == 0 then 0 else Demand(requests[0]) + Unaliased(requests[1..])
  }

  /** The suffix that request number `n` receives when counting from a
      counter at zero: suffixes run 0..1000 and then start over. */
  function Suffix(n: nat): nat
    decreases n
  {
    if n <= ResetThreshold then n else Suffix(n - (ResetThreshold + 1))
  }

  /** The suffix is the residue modulo 1001. */
  lemma {:induction false} SuffixIsResidue(n: nat)
    ensures Suffix(n) == n % (ResetThreshold + 1)
    decreases n
  {
    if n > ResetThreshold {
      SuffixIsResidue(n - (ResetThreshold + 1));
      ResidueShift(n - (ResetThreshold + 1));
    }
  }

  /** A fresh request from a counter at suffix `k` leaves it at the next
      suffix. */
  lemma SuffixStep(k: nat)
    ensures Reset(Suffix(k) + 1) == Suffix(k + 1)
  {
    SuffixIsResidue(k);
    SuffixIsResidue(k + 1);
    ResidueStep(k);
  }

  /** The aliases of consecutive suffixes, from that of request number `k`. */
  predicate IsSuffixRun(s: seq<string>, k: nat)
    decreases |s|
  {
    |s| == 0 || (s[0] == GeneratedAlias(Suffix(k)) && IsSuffixRun(s[1..], k + 1))
  }

  /** Element `i` of such a run is the alias of suffix `k + i`. */
  lemma {:induction false} SuffixRunAt(s: seq<string>, k: nat, i: nat)
    requires IsSuffixRun(s, k) && i < |s|
    ensures s[i] == GeneratedAlias(Suffix(k + i))
    decreases i
  {
    if i > 0 {
      SuffixRunAt(s[1..], k + 1, i - 1);
      assert k + 1 + (i - 1) == k + i;
    }
  }

  /** Prepending at most the alias of suffix `k` to a run that continues
      from there gives a run from `k`. */
  lemma SuffixRunCons(x: seq<string>, rest: seq<string>, k: nat, d: nat)
    requires |x| == d && (x == [] || x == [GeneratedAlias(Suffix(k))])
    requires IsSuffixRun(rest, k + d)
    ensures IsSuffixRun(x + rest, k)
  {
    if d == 0 {
      assert x + rest == rest;
    } else {
      assert (x + rest)[0] == x[0] && (x + rest)[1..] == rest;
    }
  }

  /** From a counter that, once reset, stands at suffix `k`, serving the
      requests generates one alias per request without an alias and leaves
      the counter, once reset, at the suffix after them. An aliased node may
      reset the counter, which changes nothing for later requests. */
  lemma {:induction false} ServeCounts(requests: seq<Option<string>>, counter: nat, k: nat)
    requires Reset(counter) == Suffix(k)
    ensures var served := Serve(requests, counter);
            && |served.made| == Unaliased(requests)
            && Reset(served.counter) == Suffix(k + Unaliased(requests))
    decreases |requests|
  {
    if |requests| > 0 {
      var a := GetOrCreateAlias(requests[0], counter);
      var d := Demand(requests[0]);
      assert Reset(a.counter) == Suffix(k + d) by {
        SuffixStep(k);
      }
      ServeCounts(requests[1..], a.counter, k + d);
      assert k + Unaliased(requests) == k + d + Unaliased(requests[1..]);
    }
  }

  /** Under the same condition the aliases generated carry the suffixes of
      `k`, `k + 1`, ..., across counter restarts. */
  lemma {:induction false} ServeSuffixes(requests: seq<Option<string>>, counter: nat, k: nat)
    requires Reset(counter) == Suffix(k)
    ensures IsSuffixRun(Serve(requests, counter).made, k)
    decreases |requests|
  {
    if |requests| > 0 {
      var a := GetOrCreateAlias(requests[0], counter);
      var d := Demand(requests[0]);
      assert Reset(a.counter) == Suffix(k + d) by {
        SuffixStep(k);
      }
      ServeSuffixes(requests[1..], a.counter, k + d);
      var x := GainedAlias(requests[0], Some(a.alias));
      assert |x| == d && (x == [] || x == [GeneratedAlias(Suffix(k))]);
      SuffixRunCons(x, Serve(requests[1..], a.counter).made, k, d);
    }
  }

  /** Every join without an alias asks for one. */
  lemma {:induction false} UnaliasedJoinRequests(js: seq<Join>)
    ensures Unaliased(JoinRequests(js)) == UnaliasedJoins(js)
    decreases js
  {
    if |js| > 0 {
      UnaliasedJoinRequests(js[0].joins);
      UnaliasedJoinRequests(js[1..]);
      UnaliasedAppend([js[0].alias], JoinRequests(js[0].joins));
      UnaliasedAppend([js[0].alias] + JoinRequests(js[0].joins), JoinRequests(js[1..]));
    }
  }

  /** Every root or join without an alias asks for one. */
  lemma {:induction false} UnaliasedRootRequests(roots: seq<Root>)
    ensures Unaliased(RootRequests(roots)) == UnaliasedRoots(roots)
    decreases |roots|
  {
    if |roots| > 0 {
      UnaliasedJoinRequests(roots[0].joins);
      UnaliasedRootRequests(roots[1..]);
      UnaliasedAppend([roots[0].alias], JoinRequests(roots[0].joins));
      UnaliasedAppend([roots[0].alias] + JoinRequests(roots[0].joins), RootRequests(roots[1..]));
    }
  }

  /** Counting unaliased requests distributes over concatenation. */
  lemma {:induction false} UnaliasedAppend(xs: seq<Option<string>>, ys: seq<Option<string>>)
    ensures Unaliased(xs + ys) == Unaliased(xs) + Unaliased(ys)
    decreases |xs|
  {
    if |xs| == 0 {
      assert xs + ys == ys;
    } else {
      assert (xs + ys)[0] == xs[0] && (xs + ys)[1..] == xs[1..] + ys;
      UnaliasedAppend(xs[1..], ys);
    }
  }

  /** Two numbers less than one period apart have different residues. */
  lemma ResiduesApart(a: nat, d: nat)
    requires 0 < d <= ResetThreshold
    ensures a % (ResetThreshold + 1) != (a + d) % (ResetThreshold + 1)
  {
    var q := a / (ResetThreshold + 1);
    assert a == q * (ResetThreshold + 1) + a % (ResetThreshold + 1);
  }

  /** At most 1001 aliases with consecutive suffixes are pairwise distinct,
      even when the suffixes wrap around. */
  lemma SuffixRunDistinct(made: seq<string>, m: nat)
    requires |made| <= ResetThreshold + 1
    requires IsSuffixRun(made, m)
    ensures forall i, k :: 0 <= i < k < |made| ==> made[i] != made[k]
  {
    forall i, k | 0 <= i < k < |made|
      ensures made[i] != made[k]
    {
      ResiduesApart(m + i, k - i);
      SuffixRunAt(made, m, i);
      SuffixRunAt(made, m, k);
      SuffixIsResidue(m + i);
      SuffixIsResidue(m + k);
      GeneratedAliasInjective(Suffix(m + i), Suffix(m + k));
    }
  }

  /** Copying a list of roots from any counter generates at most 1001
      aliases pairwise distinct, one per unaliased root or join. */
  lemma CopyRootsGeneratesDistinctAliases(roots: seq<Root>, copyFetches: bool, counter: nat)
    requires UnaliasedRoots(roots) <= ResetThreshold + 1
    ensures var r := CopyRoots(roots, copyFetches, counter);
            && RootJoinsAliased(roots, r.source)
            && var made := NewRootAliases(roots, r.source);
            && |made| == UnaliasedRoots(roots)
            && (forall i, k :: 0 <= i < k < |made| ==> made[i] != made[k])
  {
    var m := Reset(counter);
    CopyRootsAliasesJoins(roots, copyFetches, counter);
    CopyRootsServes(roots, copyFetches, counter);
    UnaliasedRootRequests(roots);
    ServeCounts(RootRequests(roots), counter, m);
    ServeSuffixes(RootRequests(roots), counter, m);
    SuffixRunDistinct(Serve(RootRequests(roots), counter).made, m);
  }

  /** Copying a list of roots from any counter gives suffixes that continue
      from the (reset) counter and wrap around from 1000 to 0. */
  lemma CopyRootsGeneratesSuffixes(roots: seq<Root>, copyFetches: bool, counter: nat)
    ensures var r := CopyRoots(roots, copyFetches, counter);
            && RootJoinsAliased(roots, r.source)
            && var made := NewRootAliases(roots, r.source);
            IsSuffixRun(made, Reset(counter))
  {
    CopyRootsAliasesJoins(roots, copyFetches, counter);
    CopyRootsServes(roots, copyFetches, counter);
    ServeSuffixes(RootRequests(roots), counter, Reset(counter));
  }

  /** Within one copy of a query's shape, every alias the copy generates for
      a root or join differs from every other one, from any counter, as long
      as the copy makes at most 1001 of them: the suffixes continue from the
      (reset) counter and wrap around from 1000 to 0. Below the threshold the
      counter simply advances by the number generated. */
  lemma CopyShapeGeneratesDistinctAliases(from: Query, to: Query, copyFetches: bool, counter: nat)
    requires !SkipsRoots(from)
    requires UnaliasedRoots(from.roots) <= ResetThreshold + 1
    ensures var r := CopyShape(from, to, copyFetches, counter);
            forall i :: 0 <= i < |r.source.roots| ==> r.source.roots[i].alias.Some?
    ensures var r := CopyShape(from, to, copyFetches, counter);
            && RootJoinsAliased(from.roots, r.source.roots)
            && var made := NewRootAliases(from.roots, r.source.roots);
            && |made| == UnaliasedRoots(from.roots)
            && IsSuffixRun(made, Reset(counter))
            && (forall i, k :: 0 <= i < k < |made| ==> made[i] != made[k])
            && (counter + UnaliasedRoots(from.roots) <= ResetThreshold ==>
                  && r.counter == counter + UnaliasedRoots(from.roots)
                  && forall i :: 0 <= i < |made| ==> made[i] == GeneratedAlias(counter + i))
  {
    var r := CopyShape(from, to, copyFetches, counter);
    forall i | 0 <= i < |r.source.roots|
      ensures r.source.roots[i].alias.Some?
    {
      assert RootCopied(from.roots[i], r.source.roots[i], r.dest.roots[|to.roots|..][i], copyFetches);
    }
    CopyRootsGeneratesDistinctAliases(from.roots, copyFetches, counter);
    CopyRootsGeneratesSuffixes(from.roots, copyFetches, counter);
    if counter + UnaliasedRoots(from.roots) <= ResetThreshold {
      CopyRootsCounter(from.roots, copyFetches, counter);
      CopyRootsGeneratesConsecutive(from.roots, copyFetches, counter);
    }
  }
}
