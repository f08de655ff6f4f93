/**
  The fulltext part of a query: `any` and `all` blocks move a cursor over a tree
  of composites, and the tree renders itself as the `q` parameter.
 */
module Fulltext {
  import opened Order
  import opened Wrappers

  // A keyword search is identified by a number; a document is the set of keyword
  // searches it matches.
  type Id = nat
  type Document = set<Id>

  // The name of the parameter that a join puts its keywords into.
  type Name = string

  // `join` is the parameter's name if the search is by join.
  datatype Node =
    | Search(join: Option<Name>, id: Id)
    | Composite(disjunctive: bool, components: seq<Node>)

  // ---------------------------------------------------------------------------
  // Rendering

  // `Blank` is the empty string, `Main` the keywords of a search under its own parser,
  // `Subquery` a `_query_` clause and `JoinSubquery` a clause that refers to a
  // parameter of its own.
  datatype Query =
    | Blank
    | Main(join: bool, id: Id)
    | Subquery(id: Id)
    | JoinSubquery(param: Name)
    | Group(disjunctive: bool, clauses: seq<Query>)

  datatype Params = Params(q: Option<Query>, joins: map<Name, Id>)

  const NO_PARAMS := Params(None, map[])

  function ToSubquery(n: Node): Params
    decreases n, 0
  {
    match n
    case Search(join, id) =>
      if join.Some? then Params(Some(JoinSubquery(join.value)), map[join.value := id])
      else Params(Some(Subquery(id)), map[])
    case Composite(disjunctive, cs) =>
      if cs == [] then NO_PARAMS else
      var all := ToSubqueries(cs);
      var qs := all.0;
      Params(Some(if |qs| > 1 then Group(disjunctive, qs) else if |qs| == 1 then qs[0] else Blank), all.1)
  }

  // The `q` of each component that has one, and all other parameters.
  function ToSubqueries(cs: seq<Node>): (seq<Query>, map<Name, Id>)
    decreases cs, 0
  {
    if cs == [] then ([], map[])
    else
      var first, rest := ToSubquery(cs[0]), ToSubqueries(cs[1..]);
      ((if first.q.Some? then [first.q.value] else []) + rest.0, first.joins + rest.1)
  }

  predicate HoldsJoin(cs: seq<Node>) {
    exists i :: 0 <= i < |cs| && cs[i].Search? && cs[i].join.Some?
  }

  function ToParams(n: Node): Params {
    match n
    case Search(join, id) => Params(Some(Main(join.Some?, id)), map[])
    case Composite(_, cs) =>
      if cs == [] then NO_PARAMS
      else if |cs| > 1 || HoldsJoin(cs) then ToSubquery(n)
      else ToParams(cs[0])
  }

  // ---------------------------------------------------------------------------
  // Reading a rendered query

  // Keywords alone say nothing about what to join.
  predicate WellFormed(q: Query) {
    match q
    case Blank => false
    case Main(join, _) => !join
    case Group(_, qs) => qs != [] && forall i :: 0 <= i < |qs| ==> WellFormed(qs[i])
    case _ => true
  }

  // The parameters a query refers to.
  function References(q: Query): set<Name> {
    match q
    case JoinSubquery(param) => {param}
    case Group(_, qs) => set i, p | 0 <= i < |qs| && p in References(qs[i]) :: p
    case _ => {}
  }

  predicate Matches(q: Query, joins: map<Name, Id>, d: Document) {
    match q
    case Blank => false
    case Main(join, id) => !join && id in d
    case Subquery(id) => id in d
    case JoinSubquery(param) => param in joins && joins[param] in d
    case Group(true, qs) => exists i :: 0 <= i < |qs| && Matches(qs[i], joins, d)
    case Group(false, qs) => forall i :: 0 <= i < |qs| ==> Matches(qs[i], joins, d)
  }

  // ---------------------------------------------------------------------------
  // What a tree asks for, empty blocks ignored

  predicate HasSearch(n: Node) {
    n.Search? || exists i :: 0 <= i < |n.components| && HasSearch(n.components[i])
  }

  predicate Asks(n: Node, d: Document) {
    match n
    case Search(_, id) => id in d
    case Composite(true, cs) => exists i :: 0 <= i < |cs| && HasSearch(cs[i]) && Asks(cs[i], d)
    case Composite(false, cs) => forall i :: 0 <= i < |cs| && HasSearch(cs[i]) ==> Asks(cs[i], d)
  }

  // Every composite that has components has a search somewhere below it.
  predicate Renderable(n: Node) {
    n.Search? || n.components == [] ||
    (HasSearch(n) && forall i :: 0 <= i < |n.components| ==> Renderable(n.components[i]))
  }

  // A chain of single components is skipped on the way down.
  predicate RenderableQuery(n: Node) {
    if n.Search? then n.join.None?
    else if n.components == [] then true
    else if |n.components| > 1 || HoldsJoin(n.components) then Renderable(n)
    else RenderableQuery(n.components[0])
  }

  // The joins of a tree, each with its parameter's name and its keywords.
  function Joins(n: Node): set<(Name, Id)> {
    match n
    case Search(join, id) => if join.Some? then {(join.value, id)} else {}
    case Composite(_, cs) => set i, p | 0 <= i < |cs| && p in Joins(cs[i]) :: p
  }

  // No two joins with different keywords share a parameter.
  predicate OneMeaning(joins: set<(Name, Id)>) {
    forall p, q :: p in joins && q in joins && p.0 == q.0 ==> p.1 == q.1
  }

  predicate DistinctNames(n: Node) {
    OneMeaning(Joins(n))
  }

  // The parameters are those of some joins.
  predicate From(params: map<Name, Id>, joins: set<(Name, Id)>) {
    forall k :: k in params ==> (k, params[k]) in joins
  }

  lemma {:induction false} JoinsOnlyAdd(q: Query, params: map<Name, Id>, more: map<Name, Id>,
                                        joins: set<(Name, Id)>, d: Document)
    requires OneMeaning(joins) && From(params, joins) && From(more, joins)
    requires References(q) <= params.Keys <= more.Keys
    ensures Matches(q, more, d) == Matches(q, params, d)
  {
    match q
    case JoinSubquery(k) =>
      assert k in References(q);
      assert (k, params[k]) in joins && (k, more[k]) in joins;
    case Group(_, qs) =>
      forall i | 0 <= i < |qs| ensures Matches(qs[i], more, d) == Matches(qs[i], params, d) {
        assert References(qs[i]) <= References(q);
        JoinsOnlyAdd(qs[i], params, more, joins, d);
      }
    case _ =>
  }

  predicate IsEmpty(n: Node) {
    n.Composite? && n.components == []
  }

  // The components that print a clause: all but the empty composites.
  function Rendered(cs: seq<Node>): seq<Node> {
    if cs == [] then [] else (if IsEmpty(cs[0]) then [] else [cs[0]]) + Rendered(cs[1..])
  }

  lemma {:induction false} FoundInRendered(cs: seq<Node>, i: nat) returns (j: nat)
    requires i < |cs| && !IsEmpty(cs[i])
    ensures j < |Rendered(cs)| && Rendered(cs)[j] == cs[i]
  {
    if i == 0 {
      j := 0;
    } else {
      j := FoundInRendered(cs[1..], i - 1);
      j := if IsEmpty(cs[0]) then j else j + 1;
    }
  }

  lemma {:induction false} RenderedFrom(cs: seq<Node>, j: nat) returns (i: nat)
    requires j < |Rendered(cs)|
    ensures i < |cs| && Rendered(cs)[j] == cs[i] && !IsEmpty(cs[i])
  {
    if !IsEmpty(cs[0]) && j == 0 {
      i := 0;
    } else {
      i := RenderedFrom(cs[1..], if IsEmpty(cs[0]) then j else j - 1);
      i := i + 1;
    }
  }

  // The components that print a clause, each at its place.
  function Shown(cs: seq<Node>): (r: seq<Option<Node>>)
    ensures |r| == |cs| && forall i :: 0 <= i < |r| ==> r[i] == if IsEmpty(cs[i]) then None else Some(cs[i])
  {
    seq(|cs|, i requires 0 <= i < |cs| => if IsEmpty(cs[i]) then None else Some(cs[i]))
  }

  lemma {:induction false} RenderedAppend(cs: seq<Node>, n: Node)
    ensures Rendered(cs + [n]) == Rendered(cs) + if IsEmpty(n) then [] else [n]
  {
    if cs != [] {
      assert (cs + [n])[1..] == cs[1..] + [n];
      RenderedAppend(cs[1..], n);
    }
  }

  lemma {:induction false} RenderedUpTo(cs: seq<Node>, n: nat)
    requires n <= |cs|
    ensures Rendered(cs[..n]) == Somes(Shown(cs)[..n])
  {
    if n > 0 {
      RenderedUpTo(cs, n - 1);
      assert cs[..n] == cs[..n - 1] + [cs[n - 1]];
      RenderedAppend(cs[..n - 1], cs[n - 1]);
      assert Shown(cs)[..n][..n - 1] == Shown(cs)[..n - 1];
    }
  }

  /** No component that prints a clause is lost, doubled or moved. */
  lemma RenderedInOrder(cs: seq<Node>) returns (at: seq<nat>)
    ensures Picked(Rendered(cs), Shown(cs), at)
  {
    RenderedUpTo(cs, |cs|);
    at := SomesKeepOrder(Shown(cs));
    assert cs[..|cs|] == cs && Shown(cs)[..|cs|] == Shown(cs);
  }

  /** The subqueries of a list of components are those of its rendered members, in
      order, and no join parameter they refer to is lost in the merge. */
  lemma {:induction false} SubqueriesOfRendered(cs: seq<Node>)
    ensures var (qs, params) := ToSubqueries(cs);
            && |qs| == |Rendered(cs)|
            && (forall i :: 0 <= i < |qs| ==>
                  && ToSubquery(Rendered(cs)[i]).q == Some(qs[i])
                  && References(qs[i]) <= ToSubquery(Rendered(cs)[i]).joins.Keys <= params.Keys)
    decreases cs
  {
    if cs != [] {
      SubqueriesOfRendered(cs[1..]);
      ReferencesKept(cs[0]);
    }
  }

  lemma {:induction false} ReferencesKept(n: Node)
    ensures ToSubquery(n).q.Some? ==> References(ToSubquery(n).q.value) <= ToSubquery(n).joins.Keys
    decreases n
  {
    if n.Composite? {
      SubqueriesOfRendered(n.components);
    }
  }

  // Every parameter is that of a join in the tree.
  lemma {:induction false} ParamsFromJoins(n: Node)
    ensures From(ToSubquery(n).joins, Joins(n))
    decreases n, 0
  {
    if n.Composite? && n.components != [] {
      ParamsOfAll(n.components, Joins(n));
    }
  }

  lemma {:induction false} ParamsOfAll(cs: seq<Node>, joins: set<(Name, Id)>)
    requires forall i :: 0 <= i < |cs| ==> Joins(cs[i]) <= joins
    ensures From(ToSubqueries(cs).1, joins)
    decreases cs, 1
  {
    if cs != [] {
      ParamsFromJoins(cs[0]);
      assert Joins(cs[0]) <= joins;
      assert forall i :: 0 <= i < |cs[1..]| ==> cs[1..][i] == cs[i + 1];
      ParamsOfAll(cs[1..], joins);
    }
  }

  /** A tree renders to a well-formed clause if and only if it is renderable. */
  lemma {:induction false} RenderableIsExact(n: Node)
    ensures ToSubquery(n).q.None? <==> n.Composite? && n.components == []
    ensures ToSubquery(n).q.Some? ==> (Renderable(n) <==> WellFormed(ToSubquery(n).q.value))
  {
    if n.Composite? && n.components != [] {
      var cs := n.components;
      var ns := Rendered(cs);
      var qs := ToSubqueries(cs).0;
      SubqueriesOfRendered(cs);
      forall j | 0 <= j < |ns| ensures Renderable(ns[j]) <==> WellFormed(qs[j]) {
        var i := RenderedFrom(cs, j);
        RenderableIsExact(cs[i]);
      }
      RenderableByClause(n);
    }
  }

  lemma RenderableByClause(n: Node)
    requires n.Composite? && n.components != []
    ensures var ns := Rendered(n.components);
            Renderable(n) <==> ns != [] && forall j :: 0 <= j < |ns| ==> Renderable(ns[j])
  {
    var cs := n.components;
    var ns := Rendered(cs);
    if Renderable(n) {
      var i :| 0 <= i < |cs| && HasSearch(cs[i]);
      var _ := FoundInRendered(cs, i);
      forall j | 0 <= j < |ns| ensures Renderable(ns[j]) {
        var k := RenderedFrom(cs, j);
      }
    } else if ns != [] && forall j :: 0 <= j < |ns| ==> Renderable(ns[j]) {
      var k := RenderedFrom(cs, 0);
      assert HasSearch(cs[k]);
      forall i | 0 <= i < |cs| && !IsEmpty(cs[i]) ensures Renderable(cs[i]) {
        var j := FoundInRendered(cs, i);
      }
    }
  }

  lemma AsksRendered(n: Node, d: Document)
    requires n.Composite? && Renderable(n) && HasSearch(n)
    ensures var ns := Rendered(n.components);
            && ns != [] && (forall i :: 0 <= i < |ns| ==> HasSearch(ns[i]) && Renderable(ns[i]) && ns[i] < n)
            && Asks(n, d) == if n.disjunctive then exists i :: 0 <= i < |ns| && Asks(ns[i], d)
                             else forall i :: 0 <= i < |ns| ==> Asks(ns[i], d)
  {
    var cs := n.components;
    var ns := Rendered(cs);
    forall j | 0 <= j < |ns|
      ensures HasSearch(ns[j]) && Renderable(ns[j]) && ns[j] < n
      ensures n.disjunctive && Asks(ns[j], d) ==> Asks(n, d)
      ensures !n.disjunctive && !Asks(ns[j], d) ==> !Asks(n, d)
    {
      var i := RenderedFrom(cs, j);
    }
    forall i | 0 <= i < |cs| && HasSearch(cs[i])
      ensures ns != []
      ensures Asks(cs[i], d) ==> exists j :: 0 <= j < |ns| && Asks(ns[j], d)
      ensures !Asks(cs[i], d) ==> exists j :: 0 <= j < |ns| && !Asks(ns[j], d)
    {
      var j := FoundInRendered(cs, i);
    }
  }

  /** The rendered clause matches exactly the documents the tree asks for, if no two of
      its joins share a parameter. */
  lemma {:induction false} RenderedMeans(n: Node, d: Document)
    requires Renderable(n) && HasSearch(n) && DistinctNames(n)
    ensures ToSubquery(n).q.Some?
    ensures Matches(ToSubquery(n).q.value, ToSubquery(n).joins, d) == Asks(n, d)
  {
    if n.Composite? {
      var ns := Rendered(n.components);
      var (qs, params) := ToSubqueries(n.components);
      AsksRendered(n, d);
      SubqueriesOfRendered(n.components);
      ParamsFromJoins(n);
      forall i | 0 <= i < |ns| ensures Matches(qs[i], params, d) == Asks(ns[i], d) {
        var k := RenderedFrom(n.components, i);
        assert Joins(ns[i]) <= Joins(n);
        RenderedMeans(ns[i], d);
        ReferencesKept(ns[i]);
        ParamsFromJoins(ns[i]);
        JoinsOnlyAdd(qs[i], ToSubquery(ns[i]).joins, params, Joins(n), d);
      }
    }
  }

  /** The whole `q` parameter is absent or well formed if and only if the tree is a
      renderable query. Then it selects the documents the tree asks for, or every
      document if there is no search in the tree, provided that no two joins share a
      parameter. */
  lemma {:induction false} QueryIsExact(n: Node)
    ensures var p := ToParams(n);
            RenderableQuery(n) <==> p.q.None? || WellFormed(p.q.value)
    ensures var p := ToParams(n);
            n.Composite? && RenderableQuery(n) && DistinctNames(n) ==>
              forall d :: (p.q.None? || Matches(p.q.value, p.joins, d)) <==> (HasSearch(n) ==> Asks(n, d))
  {
    if n.Composite? && n.components != [] {
      if |n.components| > 1 || HoldsJoin(n.components) {
        RenderableIsExact(n);
        forall d | Renderable(n) && DistinctNames(n)
          ensures Matches(ToParams(n).q.value, ToParams(n).joins, d) == Asks(n, d) {
          RenderedMeans(n, d);
        }
      } else {
        var c := n.components[0];
        QueryIsExact(c);
        assert HasSearch(n) == HasSearch(c);
        assert Joins(c) <= Joins(n);
      }
    }
  }

  // ---------------------------------------------------------------------------
  // Which form the query takes

  // A chain of composites with one component each, down to a search.
  predicate DownTo(n: Node, leaf: Node) {
    n == leaf || (n.Composite? && |n.components| == 1 && DownTo(n.components[0], leaf))
  }

  lemma {:induction false} SubqueryIsNotMain(n: Node)
    ensures ToSubquery(n).q.Some? ==> !ToSubquery(n).q.value.Main?
  {
    if n.Composite? && n.components != [] {
      SubqueriesOfRendered(n.components);
      var ns := Rendered(n.components);
      if |ns| == 1 {
        var i := RenderedFrom(n.components, 0);
        SubqueryIsNotMain(n.components[i]);
      }
    }
  }

  /** Keywords go to their own query parser, outside any `_query_`, if and only if they are
      the only component at every level and not those of a join. */
  lemma {:induction false} MainIsExact(n: Node, id: Id)
    ensures ToParams(n).q == Some(Main(false, id)) <==> DownTo(n, Search(None, id))
  {
    if n.Composite? && n.components != [] {
      var cs := n.components;
      SubqueryIsNotMain(n);
      if |cs| == 1 && !HoldsJoin(cs) {
        MainIsExact(cs[0], id);
      } else if |cs| == 1 {
        assert cs[0].join.Some?;
      }
    }
  }
}
