# jpa-utils query reshaping, in Dafny

This project models the query-reshaping core of `JpaUtils`. That class takes a
JPA `CriteriaQuery` and derives new queries from it: a row-count query
(`countCriteria`), and copies with or without the ordering and the selection
(`copyCriteriaNoSelection`, `copyCriteria`). All of these are built on one
structural copier (`copyCriteriaWithoutSelectionAndOrder`, `copyJoins`,
`copyFetches`). The copier names every root and join it copies. The names
come from a process-wide alias generator (`getOrCreateAlias`). The generator
writes each generated alias back onto the source node. The class also has
linear scans over a query's roots and joins (`findRoot`, `findOrCreateRoot`,
`findJoinedType`). Finally it has a small attribute classifier over the JPA
metamodel (`getAttributes`, `isTypeOrElementType`, `getMappedBy`).

The Criteria objects are immutable values here:

- A `Query` is a list of roots, a group list, a distinct flag, optional
  `having` and `where` predicates, an order list and an optional selection.
- A `Root` has an entity class, an optional alias, a join forest and a
  fetch forest.
- A `Join` has an attribute name, a join kind, the joined class, an
  optional alias, and its own joins and fetches.
- A `Fetch` has an attribute name, a join kind and nested fetches.
- Predicates, grouping and ordering expressions are opaque tokens.

Java mutates objects in place. Here every copy instead returns three things:
the updated source, the destination and the alias counter's new value.
"The position of a root in the root list" stands for the Java root reference
that the scans return.

Modules, one per file:

- `Wrappers`: `Option` and `Result`.
- `Decimal`: Java's decimal rendering of an `int` in string concatenation.
- `Aliases`: the alias generator and its counter.
- `Criteria`: the data model.
- `Finder`: `findRoot`, `findOrCreateRoot` and `findJoinedType`.
- `Copier`: `copyJoins`, both `copyFetches`, and
  `copyCriteriaWithoutSelectionAndOrder` (named `CopyShape` here).
- `FreshAliases`: how many aliases a copy generates, and which ones.
- `Recopy`: what a second copy of the same query does.
- `Transformer`: `countCriteria`, `copyCriteriaNoSelection` and
  `copyCriteria`.
- `Attributes`: `getAttributes`, `isTypeOrElementType` and `getMappedBy`.

`findRoot` returns the first root of the requested class, because the
`return` is inside the loop.

## Model

| member | source | states |
|---|---|---|
| Aliases.GetOrCreateAlias | src/main/java/dk/polytope/jpaUtils/JpaUtils.java:93-105 | An aliased node keeps its alias. An unaliased node gets `JDAL_generatedAlias` followed by the counter's decimal digits, and the counter then points one past it. The counter is reset to 0 first when it is above 1000, and that happens even for an aliased node. The counter never ends above 1001. |
| Aliases.AliasIdempotent | src/main/java/dk/polytope/jpaUtils/JpaUtils.java:98-103 | Asking again for the alias of a node that was just given one returns the same alias and generates nothing. The counter is at most reset. |
| Aliases.GeneratedAlias | src/main/java/dk/polytope/jpaUtils/JpaUtils.java:100 | A generated alias starts with the prefix `JDAL_generatedAlias` and is longer than it. |
| Aliases.GeneratedAliasReadsBack | src/main/java/dk/polytope/jpaUtils/JpaUtils.java:100 | After the prefix, a generated alias holds only decimal digits, and they read back as the counter value. |
| Aliases.GeneratedAliasInjective | src/main/java/dk/polytope/jpaUtils/JpaUtils.java:100 | Two generated aliases are equal if and only if their counter values are equal. |
| Decimal.ParseNatToString | src/main/java/dk/polytope/jpaUtils/JpaUtils.java:100 | Reading back the decimal text appended to the prefix gives the counter value. |
| Decimal.NatToStringInjective | src/main/java/dk/polytope/jpaUtils/JpaUtils.java:100 | Distinct counter values have distinct decimal texts, in both directions. |
| Aliases.CounterCountsUpToThreshold | src/main/java/dk/polytope/jpaUtils/JpaUtils.java:95-100 | Starting from the initial 0, after n ≤ 1001 fresh requests the counter is n. |
| Aliases.CounterAfterClosedForm | src/main/java/dk/polytope/jpaUtils/JpaUtils.java:95-100 | After n > 0 fresh requests the counter is ((n − 1) mod 1001) + 1. It therefore stays in 0..1001. |
| Aliases.FreshAliasCycles | src/main/java/dk/polytope/jpaUtils/JpaUtils.java:95-101 | Fresh request number n gets the suffix n mod 1001, so suffixes run from 0 to 1000 and then start over. |
| Aliases.CounterPeriodic | src/main/java/dk/polytope/jpaUtils/JpaUtils.java:95-101 | Fresh aliases, and the counter after the first request, repeat with period 1001. |
| Aliases.FreshAliasesCollideIffCongruent | src/main/java/dk/polytope/jpaUtils/JpaUtils.java:95-101 | Two fresh requests get the same alias if and only if their numbers are congruent modulo 1001. |
| Aliases.WrapAfterThousandAndOne | src/main/java/dk/polytope/jpaUtils/JpaUtils.java:95-101 | Request 1000 gets suffix 1000, and request 1001 reuses suffix 0, the alias of request 0. |
| Criteria.NewQuery | src/main/java/dk/polytope/jpaUtils/JpaUtils.java:74 | `createQuery(resultType)` gives a query of that result type on the same provider, with no roots, grouping, ordering, restrictions or selection, and not distinct. |
| Criteria.NewRoot | src/main/java/dk/polytope/jpaUtils/JpaUtils.java:145 | `query.from(clazz)` creates a root of that class with no alias, joins or fetches. |
| Finder.FindRoot | src/main/java/dk/polytope/jpaUtils/JpaUtils.java:125-133 | None exactly when no root has the class. Otherwise the answer is a root of that class with no earlier root of that class, i.e. the first match. |
| Finder.FindResultRoot | src/main/java/dk/polytope/jpaUtils/JpaUtils.java:113-115 | The same scan, for the query's own result type. |
| Finder.FindRootIgnoresLaterRoots | src/main/java/dk/polytope/jpaUtils/JpaUtils.java:127-130 | Once a root of the class exists, roots added after it do not change the answer. |
| Finder.FindRootByClassesOnly | src/main/java/dk/polytope/jpaUtils/JpaUtils.java:127-128 | The scan compares only classes. Two root lists with the same classes in the same order give the same answer. |
| Finder.FindOrCreateRoot | src/main/java/dk/polytope/jpaUtils/JpaUtils.java:143-146 | The answer is always a root of the class. When one exists, the query is unchanged and the answer is the `findRoot` answer. Otherwise exactly one bare root of the class is appended, and that root is the answer. |
| Finder.FindOrCreateRootStable | src/main/java/dk/polytope/jpaUtils/JpaUtils.java:143-146 | After `findOrCreateRoot`, `findRoot` finds the returned root, and a second `findOrCreateRoot` changes nothing. |
| Finder.LastMatch | src/main/java/dk/polytope/jpaUtils/JpaUtils.java:159-165 | The loop without `break` keeps the last matching join. It gives None exactly when nothing matches. |
| Finder.JoinTypeEqualsClass | src/main/java/dk/polytope/jpaUtils/JpaUtils.java:161 | The test `j.getJoinType().equals(joinClass)`: a `JoinType` constant never equals a `Class` object, so it is false for every join kind and class. |
| Finder.FindJoinedType | src/main/java/dk/polytope/jpaUtils/JpaUtils.java:157-166 | As written: it requires a root of `rootClass`, which is dereferenced unchecked. It always answers `null`, because a join kind is never equal to a class. |
| Finder.FindJoinedTypeCorrected | src/main/java/dk/polytope/jpaUtils/JpaUtils.java:157-166 | As intended: the last direct join, under the first root of `rootClass`, whose joined class is `joinClass`. None exactly when there is no such join. |
| Finder.FindJoinedTypeMissesExistingJoin | src/main/java/dk/polytope/jpaUtils/JpaUtils.java:161 | An `Order` root joining `items` of class `Item`: the code as written answers `null`, and the corrected scan finds the join. |
| Copier.CopyJoins | src/main/java/dk/polytope/jpaUtils/JpaUtils.java:270-277 | The source forest keeps its shape, attributes, kinds, classes and fetches, and every join now has an alias, existing aliases kept. The destination forest is that aliased forest with the joins' fetches dropped, so each copied join shares its source join's alias. The counter bound is kept. |
| Copier.WithoutFetchesFetchFree | src/main/java/dk/polytope/jpaUtils/JpaUtils.java:270-277 | Dropping a join forest's fetches, as `copyJoins` does by never copying a join's fetches, leaves no fetch on any join at any depth. |
| Copier.CopyFetches | src/main/java/dk/polytope/jpaUtils/JpaUtils.java:285-304 | The copy has the same attribute names and nesting. Every copied fetch is an inner fetch, the default of `fetch(String)`. |
| Copier.CopyFetchesExactIffInner | src/main/java/dk/polytope/jpaUtils/JpaUtils.java:285-304 | The copy equals the source if and only if every source fetch is inner. |
| Copier.CopyFetchesIdempotent | src/main/java/dk/polytope/jpaUtils/JpaUtils.java:285-304 | Copying a copy changes nothing. |
| Copier.CopyRoots | src/main/java/dk/polytope/jpaUtils/JpaUtils.java:234-241 | One destination root per source root, in order. Each has the same class and the source root's (possibly new) alias. Each has the aliased join forest, and has the fetches exactly when they are copied. The source roots change only by gaining aliases. |
| Copier.SkipsRoots | src/main/java/dk/polytope/jpaUtils/JpaUtils.java:230 | The root loop is skipped exactly when the source comes from EclipseLink and has a `where` predicate. |
| Copier.CopyShape | src/main/java/dk/polytope/jpaUtils/JpaUtils.java:228-253 | With EclipseLink and a `where` predicate the root loop is skipped and the source is untouched. Otherwise the copies follow the destination's own roots. Group list and distinct flag are always copied. `having` and `where` are copied only when set. Order list, selection, result type and provider are left alone. The source changes only in its roots. |
| FreshAliases.CopyJoinsCounter | src/main/java/dk/polytope/jpaUtils/JpaUtils.java:270-277 | Below the reset threshold, copying a join forest advances the counter by exactly the number of unaliased joins. |
| FreshAliases.CopyJoinsGeneratesConsecutive | src/main/java/dk/polytope/jpaUtils/JpaUtils.java:270-277 | Under the same condition, the new aliases come from consecutive counter values, in the copy's visiting order: a join before its children, children before later siblings. |
| FreshAliases.CopyRootsCounter | src/main/java/dk/polytope/jpaUtils/JpaUtils.java:234-241 | Below the reset threshold, copying the roots advances the counter by the number of unaliased roots and joins. |
| FreshAliases.CopyRootsGeneratesConsecutive | src/main/java/dk/polytope/jpaUtils/JpaUtils.java:234-241 | Under the same condition, the aliases generated for roots and joins come from consecutive counter values, in visiting order. |
| FreshAliases.ServeAppend | src/main/java/dk/polytope/jpaUtils/JpaUtils.java:93-105 | Serving two lists of alias requests one after the other gives the same aliases and counter as serving their concatenation. |
| FreshAliases.CopyJoinsServes | src/main/java/dk/polytope/jpaUtils/JpaUtils.java:270-277 | Copying a join forest generates exactly the aliases, and leaves exactly the counter, that serving its joins' requests one by one in visiting order does: a join, then its children, then its later siblings. |
| FreshAliases.CopyRootsServes | src/main/java/dk/polytope/jpaUtils/JpaUtils.java:234-241 | The same for the root loop: each root's request, then its joins' requests, then the later roots'. |
| FreshAliases.SuffixIsResidue | src/main/java/dk/polytope/jpaUtils/JpaUtils.java:95-100 | The suffix of fresh request number n counted from a zero counter, 0..1000 and then over again, is n mod 1001. |
| FreshAliases.SuffixRunAt | src/main/java/dk/polytope/jpaUtils/JpaUtils.java:95-100 | In a run of generated aliases from suffix k, element i is the alias of the suffix of k + i. |
| FreshAliases.ServeCounts | src/main/java/dk/polytope/jpaUtils/JpaUtils.java:93-105 | From a counter whose reset value is suffix k, serving requests generates one alias per request without an alias. The reset counter ends at the suffix of k plus their number. This holds across resets, including resets caused by aliased nodes. |
| FreshAliases.ServeSuffixes | src/main/java/dk/polytope/jpaUtils/JpaUtils.java:93-105 | Under the same condition, the generated aliases carry the suffixes of k, k + 1, ... in order, wrapping from 1000 to 0. |
| FreshAliases.SuffixRunDistinct | src/main/java/dk/polytope/jpaUtils/JpaUtils.java:95-101 | At most 1001 generated aliases with consecutive suffixes are pairwise distinct, even when the suffixes wrap around. |
| FreshAliases.CopyRootsAliasesJoins | src/main/java/dk/polytope/jpaUtils/JpaUtils.java:234-241 | The root loop leaves every join under every source root aliased. |
| FreshAliases.CopyRootsGeneratesDistinctAliases | src/main/java/dk/polytope/jpaUtils/JpaUtils.java:234-241 | Copying roots whose forests hold at most 1001 unaliased roots and joins, from any counter, generates one alias per unaliased node, all pairwise distinct. |
| FreshAliases.CopyRootsGeneratesSuffixes | src/main/java/dk/polytope/jpaUtils/JpaUtils.java:234-241 | From any counter, the aliases the root loop generates carry consecutive suffixes from the reset counter, wrapping from 1000 to 0. |
| FreshAliases.CopyShapeGeneratesDistinctAliases | src/main/java/dk/polytope/jpaUtils/JpaUtils.java:228-241 | Take a copy that does not skip roots and has at most 1001 unaliased roots and joins, from any counter. Every root and every join of the source ends up aliased. The copy generates one alias per unaliased node. The suffixes continue from the reset counter and wrap from 1000 to 0 (i.e. the reset counter plus i, mod 1001). The aliases are pairwise distinct, even across the reset. Below the threshold, the counter advances by their number and the suffixes are the counter values themselves. |
| Recopy.AliasedJoinsNamed | src/main/java/dk/polytope/jpaUtils/JpaUtils.java:270-277 | After `copyJoins` every join of the source forest, at every depth, has an alias. |
| Recopy.NamedJoinsKept | src/main/java/dk/polytope/jpaUtils/JpaUtils.java:270-277 | Aliasing a forest whose joins all have aliases leaves it unchanged. |
| Recopy.CopyShapeNamesSource | src/main/java/dk/polytope/jpaUtils/JpaUtils.java:234-241 | After a copy that does not skip roots, every source root and join has an alias. |
| Recopy.CopyShapeKeepsNamedSource | src/main/java/dk/polytope/jpaUtils/JpaUtils.java:228-253 | Copying a fully named query leaves the source unchanged. |
| Recopy.CopyShapeTwice | src/main/java/dk/polytope/jpaUtils/JpaUtils.java:228-253 | Copying the updated source again, into the original destination value with the same fetch flag, leaves the source as it is. It builds the same destination, whatever the counter. |
| Transformer.CountCriteria | src/main/java/dk/polytope/jpaUtils/JpaUtils.java:72-86 | The shape is copied without fetches into a fresh `Long` query, and there is no ordering. The selection is `countDistinct` when the source is distinct and `count` otherwise. When roots are copied, it counts the copy of the source's first root of its result type. |
| Transformer.CountedRoot | src/main/java/dk/polytope/jpaUtils/JpaUtils.java:79-82 | When roots are copied, `findRoot` on the count query finds the copy of the root that `findRoot` finds in the source. |
| Transformer.CountQueryShape | src/main/java/dk/polytope/jpaUtils/JpaUtils.java:72-86 | The count query has result type `Long` and the source's distinct flag, `having` and `where`. No root and no join at any depth carries a fetch. Its counted root is a root of the count query with the source's result type. |
| Transformer.CopyCriteriaNoSelection | src/main/java/dk/polytope/jpaUtils/JpaUtils.java:217-220 | The shape is copied with fetches, and the ordering is replaced by the source's. The destination's selection is untouched. |
| Transformer.CopyCriteria | src/main/java/dk/polytope/jpaUtils/JpaUtils.java:259-262 | As `copyCriteriaNoSelection`, and the selection is replaced by the source's. |
| Transformer.CopyCriteriaIntoFreshQuery | src/main/java/dk/polytope/jpaUtils/JpaUtils.java:217-262 | Copied into a fresh query of the same type and provider, the copy equals the updated source in everything but the roots: grouping, distinct flag, restrictions, ordering and selection. This holds whether or not the roots are skipped. |
| Transformer.CopyCriteriaRootsMirrorSource | src/main/java/dk/polytope/jpaUtils/JpaUtils.java:234-237 | When roots are not skipped (no EclipseLink `where`) and the copy goes into a query without roots, the copy has one root per source root, in order, each with the source root's class and alias. |
| Transformer.CopyCriteriaKeepsResultRoot | src/main/java/dk/polytope/jpaUtils/JpaUtils.java:113-133 | When roots are not skipped (no EclipseLink `where`) and the copy goes into an empty query of the same result type, `findRoot(query)` on the copy answers the same position as on the source. |
| Attributes.IsTypeOrElementType | src/main/java/dk/polytope/jpaUtils/JpaUtils.java:345-351 | For a singular attribute, the test is whether the class is assignable from its type. For a `Collection` attribute, it is the element type instead. Any other plural attribute fails the cast to `CollectionAttribute`. |
| Attributes.FilterAttributes | src/main/java/dk/polytope/jpaUtils/JpaUtils.java:317-322 | The loop fails exactly when an attribute of the requested persistent type fails the cast. Otherwise it collects exactly the attributes of that type that pass the test. |
| Attributes.GetAttributes | src/main/java/dk/polytope/jpaUtils/JpaUtils.java:314-325 | The result is the set of the entity's attributes with the persistent type whose type, or element type, the class is assignable from. A cast error occurs exactly when such an attribute is a non-`Collection` plural. |
| Attributes.GetAttributesOfType | src/main/java/dk/polytope/jpaUtils/JpaUtils.java:334-336 | The same filter with `Object` as the class. |
| Attributes.GetAttributesOfTypeKeepsAll | src/main/java/dk/polytope/jpaUtils/JpaUtils.java:334-336 | When `Object` is assignable from the tested type (declared or element type) of each attribute of the persistent type, the default overload succeeds exactly when no attribute of that persistent type is a `Set`, `List` or `Map` plural (otherwise the cast error is raised). When it succeeds, it keeps every attribute of that persistent type. |
| Attributes.DefaultOverloadDropsPrimitive | src/main/java/dk/polytope/jpaUtils/JpaUtils.java:327-336 | With Java's assignability, where `Object` is not assignable from a primitive class, the default overload on `Person { int age; String name }` returns only `name`. That is fewer than the "all attributes of type with persistent type" its documentation promises. |
| Attributes.FirstMappedBy | src/main/java/dk/polytope/jpaUtils/JpaUtils.java:371-383 | The `mappedBy` of the first `OneToMany`, `ManyToMany` or `OneToOne` annotation. None exactly when there is no such annotation. |
| Attributes.FirstMappedByIgnoresLater | src/main/java/dk/polytope/jpaUtils/JpaUtils.java:371-383 | Annotations after the first mapping annotation are never looked at. |
| Attributes.GetMappedBy | src/main/java/dk/polytope/jpaUtils/JpaUtils.java:359-386 | None for a non-association, when there is no mapping annotation, and when `mappedBy` is empty. Otherwise the first mapping annotation's `mappedBy`. Never the empty string. |

## Left out

- `count`, `createNativeCount`, `createNativeCountQuery` and `getPositionalParamBindingsFromNamedParams`: they execute queries, call the Hibernate translator and bind parameters. These are foreign library calls and I/O.
- `createCountQueryString`, `getAlias(String)` and `getKeyQuery`: they are Java regular-expression rewrites. A faithful model would need Java's regex semantics.
- `isEclipseLink`: it inspects a runtime class name. It is the `eclipseLink` flag on `Query`.
- `synchronized` and `volatile` on the counter: the counter is sequential state threaded through the calls, with no concurrency.
- Java `int` overflow of the counter: it cannot happen, since the counter never exceeds 1001.
- The generic casts `r.as(clazz)` and the `CriteriaBuilder` calls: a counted root is recorded as a `Count` selection naming the root's position.
- A `Count` selection copied by `copyCriteria` is read against the destination's roots. Its root position keeps pointing at the counted root only when the copy goes into a query without roots and the roots are not skipped. Java's by-reference selection would still render the source root's alias.
- Copier.CopyShape: with EclipseLink, `to.where(predicate)` (line 252) adds the roots on the predicate's paths to the destination, as the comment at line 231 says. The model's `where` is an opaque token that adds nothing. So in the skipped branch the model leaves the destination's roots unchanged, where EclipseLink would have added the predicate's roots.
- Transformer.CountCriteria: for the same reason, in the EclipseLink-with-`where` case the model counts over no root (`Count(distinct, None)`). EclipseLink would give the count query the predicate's roots, and `findRoot` at lines 80 and 82 could then find one. The model does not predict that root.
- Transformer.CountedRoot: its clause for the skipped case (nothing found) rests on the same abstraction of EclipseLink's `where`, and says nothing about the roots EclipseLink adds.
- Transformer.CountQueryShape: in the skipped case the model's count query has no roots, by the same abstraction. EclipseLink would add the predicate's roots.
- Copier.CopyShape: the source and the destination are distinct query objects. Copying a query into itself makes Java iterate `from.getRoots()` (line 235) while `to.from(...)` (line 236) adds to that same root set. The model does not cover that aliasing; with `from == to` it returns the roots doubled.
- Attributes.GetAttributesOfTypeKeepsAll: it holds only when `Object` is assignable from the tested type of every attribute of the persistent type. An attribute whose type is reported as a primitive class (`int`) is dropped by the default overload, as `Attributes.DefaultOverloadDropsPrimitive` shows. Whether a provider reports primitive or boxed classes is provider behaviour, not part of this model. Even then, the call keeps those attributes only when none of them is a `Set`, `List` or `Map` plural; otherwise the cast at line 347 raises and nothing is returned.
- JPA root and join sets, and the attribute set of `type.getAttributes()` (line 318), have an iteration order decided by the provider. The model fixes that order as the list order. For attributes, that order decides which attribute's cast error `getAttributes` reports when several would raise.
- Class assignability and reflection: assignability is a relation supplied by the caller. The annotations reflection would return are given as a list.
- Attributes.GetMappedBy: the case of an association whose Java member is neither a field nor a method is excluded by a precondition. There the loop would dereference a `null` annotation array.
- Finder.FindJoinedType: a missing root of `rootClass` is excluded by a precondition rather than modelled as the `NullPointerException` the code raises.
- FreshAliases.CopyShapeGeneratesDistinctAliases: distinctness is stated for copies that generate at most 1001 aliases. A copy that generates more reuses a suffix, as `Aliases.FreshAliasesCollideIffCongruent` shows. The lemma speaks of the aliases one copy generates. It says nothing about aliases that earlier copies left on the source, which a wrapped counter can generate again.
- The two-argument `copyFetches(Fetch, Fetch)` is the same recursion as `copyFetches(From, From)`. Both are the one function `Copier.CopyFetches` over a fetch forest.

## Findings

| source | as written | input that shows it | evidently intended | confidence | as-written member | corrected member |
|---|---|---|---|---|---|---|
| src/main/java/dk/polytope/jpaUtils/JpaUtils.java:161 | `j.getJoinType().equals(joinClass)` compares a `JoinType` constant with a `Class`. It is never true, so `findJoinedType` always returns `null`. | A query with root `Order` joining `items` of class `Item`, asked for `findJoinedType(q, Order.class, Item.class)`. | Compare the joined entity's class (`j.getJavaType()`) with `joinClass`, keeping the last such join. | not executed | Finder.FindJoinedType (shown by Finder.FindJoinedTypeMissesExistingJoin) | Finder.FindJoinedTypeCorrected |
