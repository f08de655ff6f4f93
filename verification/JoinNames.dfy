/**
  Joins in a fulltext query: each puts its keywords into a parameter, and the names of
  those parameters have to differ.
 */
module JoinNames {
  import opened Fulltext
  import opened Wrappers

  // ---------------------------------------------------------------------------
  // Joins that share a parameter

  function Ids(n: Node): set<Id> {
    match n
    case Search(_, id) => {id}
    case Composite(_, cs) => set i, a | 0 <= i < |cs| && a in Ids(cs[i]) :: a
  }

  function PlainIds(n: Node): set<Id> {
    match n
    case Search(join, id) => if join.None? then {id} else {}
    case Composite(_, cs) => set i, a | 0 <= i < |cs| && a in PlainIds(cs[i]) :: a
  }

  // No keywords are searched for twice.
  predicate Independent(n: Node) {
    n.Composite? ==>
    && (forall i :: 0 <= i < |n.components| ==> Independent(n.components[i]))
    && (forall i, j :: 0 <= i < j < |n.components| ==> Ids(n.components[i]) !! Ids(n.components[j]))
  }

  lemma {:induction false} AsksFrame(n: Node, d: Document, e: Document)
    requires forall a :: a in Ids(n) ==> (a in d <==> a in e)
    ensures Asks(n, d) == Asks(n, e)
  {
    if n.Composite? {
      forall i | 0 <= i < |n.components| ensures Asks(n.components[i], d) == Asks(n.components[i], e) {
        assert Ids(n.components[i]) <= Ids(n);
        AsksFrame(n.components[i], d, e);
      }
    }
  }

  lemma {:induction false} AsksAllOrNothing(n: Node, d: Document)
    requires HasSearch(n)
    ensures Ids(n) <= d ==> Asks(n, d)
    ensures Ids(n) !! d ==> !Asks(n, d)
  {
    if n.Composite? {
      var k :| 0 <= k < |n.components| && HasSearch(n.components[k]);
      forall i | 0 <= i < |n.components| && HasSearch(n.components[i])
        ensures Ids(n) <= d ==> Asks(n.components[i], d)
        ensures Ids(n) !! d ==> !Asks(n.components[i], d)
      {
        assert Ids(n.components[i]) <= Ids(n);
        AsksAllOrNothing(n.components[i], d);
      }
    }
  }

  lemma {:induction false} IdMeansSearch(n: Node, a: Id)
    requires a in Ids(n)
    ensures HasSearch(n)
  {
    if n.Composite? {
      var i :| 0 <= i < |n.components| && a in Ids(n.components[i]);
      IdMeansSearch(n.components[i], a);
    }
  }

  // A component that says yes among alternatives, or no among demands, would decide; so the
  // others are made to do the opposite.
  function Neutral(n: Node, i: nat): Document
    requires n.Composite? && i < |n.components|
  {
    if n.disjunctive then {} else Ids(n) - Ids(n.components[i])
  }

  lemma OthersAreNeutral(n: Node, i: nat, j: nat, d: Document)
    requires n.Composite? && Independent(n) && i < |n.components| && j < |n.components| && i != j
    requires HasSearch(n.components[j])
    requires d - Ids(n.components[i]) == Neutral(n, i)
    ensures Asks(n.components[j], d) == !n.disjunctive
  {
    var (mine, theirs) := (Ids(n.components[i]), Ids(n.components[j]));
    assert mine !! theirs && theirs <= Ids(n);
    forall x | x in theirs ensures x in d <==> !n.disjunctive {
      assert x in d <==> x in d - mine;
    }
    AsksAllOrNothing(n.components[j], d);
  }

  lemma OneDecides(n: Node, i: nat, d: Document)
    requires n.Composite? && Independent(n) && i < |n.components| && HasSearch(n.components[i])
    requires d - Ids(n.components[i]) == Neutral(n, i)
    ensures Asks(n, d) == Asks(n.components[i], d)
  {
    forall j | 0 <= j < |n.components| && j != i && HasSearch(n.components[j])
      ensures Asks(n.components[j], d) == !n.disjunctive
    {
      OthersAreNeutral(n, i, j, d);
    }
  }

  // For any of its searches there is a document for which that search decides.
  lemma {:induction false} Pivot(n: Node, a: Id) returns (d: Document)
    requires Independent(n) && a in Ids(n)
    ensures Asks(n, d + {a}) && !Asks(n, d - {a})
  {
    if n.Search? {
      d := {};
    } else {
      var i :| 0 <= i < |n.components| && a in Ids(n.components[i]);
      var c := n.components[i];
      var e := Pivot(c, a);
      IdMeansSearch(c, a);
      d := e * Ids(c) + Neutral(n, i);
      AsksFrame(c, d + {a}, e + {a});
      AsksFrame(c, d - {a}, e - {a});
      OneDecides(n, i, d + {a});
      OneDecides(n, i, d - {a});
    }
  }

  // The keywords that a query looks at.
  function Read(q: Query, params: map<Name, Id>): set<Id> {
    match q
    case Blank => {}
    case Main(_, id) => {id}
    case Subquery(id) => {id}
    case JoinSubquery(k) => if k in params then {params[k]} else {}
    case Group(_, qs) => set i, a | 0 <= i < |qs| && a in Read(qs[i], params) :: a
  }

  lemma {:induction false} MatchesFrame(q: Query, params: map<Name, Id>, d: Document, e: Document)
    requires forall a :: a in Read(q, params) ==> (a in d <==> a in e)
    ensures Matches(q, params, d) == Matches(q, params, e)
  {
    if q.Group? {
      forall i | 0 <= i < |q.clauses| ensures Matches(q.clauses[i], params, d) == Matches(q.clauses[i], params, e) {
        assert Read(q.clauses[i], params) <= Read(q, params);
        MatchesFrame(q.clauses[i], params, d, e);
      }
    }
  }

  // A query looks at plain searches and at what is in the parameters.
  lemma {:induction false} ReadsPlainOrParams(n: Node, params: map<Name, Id>)
    ensures ToSubquery(n).q.Some? ==> Read(ToSubquery(n).q.value, params) <= PlainIds(n) + params.Values
  {
    if n.Composite? && n.components != [] {
      var cs := n.components;
      var (ns, qs) := (Rendered(cs), ToSubqueries(cs).0);
      SubqueriesOfRendered(cs);
      forall i | 0 <= i < |qs| ensures Read(qs[i], params) <= PlainIds(n) + params.Values {
        var k := RenderedFrom(cs, i);
        ReadsPlainOrParams(cs[k], params);
        assert PlainIds(cs[k]) <= PlainIds(n);
      }
    }
  }

  // In an independent tree the keywords of a join are those of one join alone.
  lemma {:induction false} JoinIsAlone(n: Node, k: Name, l: Name, a: Id)
    requires Independent(n) && (k, a) in Joins(n)
    ensures a in Ids(n) && a !in PlainIds(n) && ((l, a) in Joins(n) ==> k == l)
  {
    if n.Composite? {
      var cs := n.components;
      var i :| 0 <= i < |cs| && (k, a) in Joins(cs[i]);
      JoinIsAlone(cs[i], k, l, a);
      forall j | 0 <= j < |cs| && j != i ensures a !in PlainIds(cs[j]) && (l, a) !in Joins(cs[j]) {
        assert Ids(cs[i]) !! Ids(cs[j]);
        FoundAmongIds(cs[j], l, a);
      }
    }
  }

  lemma {:induction false} FoundAmongIds(n: Node, l: Name, a: Id)
    ensures a in PlainIds(n) || (l, a) in Joins(n) ==> a in Ids(n)
  {
    if n.Composite? {
      forall i | 0 <= i < |n.components| {
        FoundAmongIds(n.components[i], l, a);
      }
    }
  }

  // Of two joins with one parameter, the query does not look at the keywords of one.
  lemma UnreadDiffers(n: Node, k: Name, a: Id) returns (d: Document)
    requires Renderable(n) && HasSearch(n) && Independent(n) && (k, a) in Joins(n)
    requires var p := ToSubquery(n); p.q.Some? && !(k in p.joins && p.joins[k] == a)
    ensures Matches(ToSubquery(n).q.value, ToSubquery(n).joins, d) != Asks(n, d)
  {
    var p := ToSubquery(n);
    JoinIsAlone(n, k, k, a);
    ParamsFromJoins(n);
    ReadsPlainOrParams(n, p.joins);
    forall l | l in p.joins ensures p.joins[l] != a {
      JoinIsAlone(n, k, l, a);
    }
    var e := Pivot(n, a);
    MatchesFrame(p.q.value, p.joins, e + {a}, e - {a});
    d := if Matches(p.q.value, p.joins, e + {a}) then e - {a} else e + {a};
  }

  /** For a tree that searches for nothing twice, the rendered clause means what the tree
      asks for if and only if no two of its joins share a parameter. */
  lemma NamesAreExact(n: Node)
    requires Renderable(n) && HasSearch(n) && Independent(n)
    ensures ToSubquery(n).q.Some?
    ensures DistinctNames(n) <==>
              forall d :: Matches(ToSubquery(n).q.value, ToSubquery(n).joins, d) == Asks(n, d)
  {
    RenderableIsExact(n);
    var p := ToSubquery(n);
    if DistinctNames(n) {
      forall d ensures Matches(p.q.value, p.joins, d) == Asks(n, d) {
        RenderedMeans(n, d);
      }
    } else {
      var v, w :| v in Joins(n) && w in Joins(n) && v.0 == w.0 && v.1 != w.1;
      var a := if v.0 in p.joins && p.joins[v.0] == v.1 then w.1 else v.1;
      var d := UnreadDiffers(n, v.0, a);
    }
  }

  // ---------------------------------------------------------------------------
  // Names of parameters

  // The name is put together from the target class of a join and the number of the
  // object that stands for the join.
  function JoinName(target: string, number: string): Name {
    "q" + target + number
  }

  predicate Digits(t: string) {
    forall i :: 0 <= i < |t| ==> '0' <= t[i] <= '9'
  }

  predicate EndsInDigit(t: string) {
    t != "" && '0' <= t[|t| - 1] <= '9'
  }

  lemma LongerTargetEndsInDigit(target: string, number: string, target': string, number': string)
    requires JoinName(target, number) == JoinName(target', number') && Digits(number) && |target| < |target'|
    ensures EndsInDigit(target')
  {
    var k := |target'| - |target| - 1;
    assert JoinName(target', number')[|target'|] == target'[|target'| - 1];
    assert JoinName(target, number)[|target| + 1 + k] == number[k];
  }

  /** Unless the name of a target class ends in a digit, different joins have different
      names. */
  lemma JoinNamesDiffer(target: string, number: string, target': string, number': string)
    requires Digits(number) && Digits(number') && !EndsInDigit(target) && !EndsInDigit(target')
    ensures JoinName(target, number) == JoinName(target', number') <==> target == target' && number == number'
  {
    var (n, m) := (JoinName(target, number), JoinName(target', number'));
    if n == m {
      if |target| < |target'| {
        LongerTargetEndsInDigit(target, number, target', number');
      } else if |target'| < |target| {
        LongerTargetEndsInDigit(target', number', target, number);
      } else {
        assert n[1..1 + |target|] == target && m[1..1 + |target'|] == target';
        assert n[1 + |target|..] == number && m[1 + |target'|..] == number';
      }
    }
  }

  // Otherwise they can share one, and both clauses then ask for the keywords of the
  // second join.
  lemma SharedName(a: Id, b: Id)
    requires a != b
    ensures JoinName("Post1", "23") == JoinName("Post", "123") == "qPost123"
    ensures var name := JoinName("Post", "123");
            var n := Composite(false, [Search(Some(name), a), Search(Some(name), b)]);
            && ToParams(n) == Params(Some(Group(false, [JoinSubquery(name), JoinSubquery(name)])), map[name := b])
            && Matches(ToParams(n).q.value, ToParams(n).joins, {b}) && !Asks(n, {b})
  {
    var name := JoinName("Post", "123");
    var (first, second) := (Search(Some(name), a), Search(Some(name), b));
    var cs := [first, second];
    var joins: map<Name, Id> := map[name := b];
    assert cs[1..] == [second] && [second][1..] == [];
    var none: map<Name, Id> := map[];
    assert joins + none == joins && map[name := a] + joins == joins;
    assert ToSubqueries([]) == ([], none);
    assert ToSubquery(second) == Params(Some(JoinSubquery(name)), joins);
    assert ToSubqueries([second]).0 == [JoinSubquery(name)] + [];
    assert ToSubqueries([second]).1 == joins + none;
    assert ToSubqueries(cs) == ([JoinSubquery(name)] + ToSubqueries([second]).0, joins);
    assert [JoinSubquery(name)] + ([JoinSubquery(name)] + []) == [JoinSubquery(name), JoinSubquery(name)];
    assert ToSubqueries(cs).0 == [JoinSubquery(name), JoinSubquery(name)];
    assert HasSearch(cs[0]) && !Asks(cs[0], {b});
  }
}
