/** The JPA Criteria objects the utilities work on, as immutable values.
    Predicates, grouping and ordering expressions are opaque tokens: the
    utilities only ever pass them along by reference. */
module Criteria {
  import opened Wrappers

  /** A Java class, identified by its name. */
  type TypeToken = string

  const LongType: TypeToken := "java.lang.Long"
  const ObjectType: TypeToken := "java.lang.Object"

  /** `javax.persistence.criteria.JoinType`. */
  datatype JoinKind = Inner | Left | Right

  /** A fetch join: attribute name, join kind and nested fetches. A fetch has
      no alias. */
  datatype Fetch = Fetch(attribute: string, kind: JoinKind, fetches: seq<Fetch>)

  /** A join: attribute name, join kind, the joined entity's class, its
      alias, and (being a `From` itself) nested joins and fetches. */
  datatype Join = Join(
    attribute: string,
    kind: JoinKind,
    javaType: TypeToken,
    alias: Option<string>,
    joins: seq<Join>,
    fetches: seq<Fetch>)

  /** A query root: the entity class, its alias, its joins and its fetches. */
  datatype Root = Root(
    javaType: TypeToken,
    alias: Option<string>,
    joins: seq<Join>,
    fetches: seq<Fetch>)

  /** A predicate, grouping expression or ordering, passed on by reference. */
  datatype Token = Token(id: nat)

  /** The projection of a query: a caller's opaque selection, or the
      `count`/`countDistinct` of a root of the same query, given by its
      position in the root list; `None` stands for a `null` root. */
  datatype Selection =
    | Opaque(token: Token)
    | Count(distinct: bool, root: Option<nat>)

  /** A `CriteriaQuery`. `eclipseLink` records whether the query object comes
      from the EclipseLink provider; `None` fields are Java `null`s. */
  datatype Query = Query(
    resultType: TypeToken,
    eclipseLink: bool,
    roots: seq<Root>,
    groupList: seq<Token>,
    distinct: bool,
    having: Option<Token>,
    where: Option<Token>,
    orderList: seq<Token>,
    selection: Option<Selection>)

  /** What `CriteriaBuilder.createQuery(resultType)` returns. */
  function NewQuery(resultType: TypeToken, eclipseLink: bool): (q: Query)
    ensures q.resultType == resultType && q.eclipseLink == eclipseLink
    ensures q.roots == [] && q.groupList == [] && q.orderList == []
    ensures !q.distinct && q.having.None? && q.where.None? && q.selection.None?
  {
    Query(resultType, eclipseLink, [], [], false, None, None, [], None)
  }

  /** What `CriteriaQuery.from(type)` creates: a bare root. */
  function NewRoot(javaType: TypeToken): (r: Root)
    ensures r.javaType == javaType && r.alias.None? && r.joins == [] && r.fetches == []
  {
    Root(javaType, None, [], [])
  }
}
