/**
  The scope DSL: blocks of `with`, `without`, `any_of` and `all_of` calls, which
  extend a shared tree of connectives in place.
 */
module ScopeDsl {
  import opened Connective

  datatype Statement =
    | Restrict(negated: bool, kind: Kind, atom: Atom)
    | AnyOf(body: seq<Statement>)
    | AllOf(body: seq<Statement>)

  // What a statement asks for, read as nested blocks.
  ghost predicate Asks(s: Statement, d: Document) {
    match s
    case Restrict(negated, kind, a) => Holds(Restriction(kind, negated, a), d)
    case AnyOf(body) => exists i :: 0 <= i < |body| && Asks(body[i], d)
    case AllOf(body) => forall i :: 0 <= i < |body| ==> Asks(body[i], d)
  }

  // The components a block adds to a connective: a block of the connective's own
  // kind adds its statements to the connective itself.
  function Components(disjunctive: bool, body: seq<Statement>): seq<Component>
    decreases body
  {
    if body == [] then []
    else Added(disjunctive, body[0]) + Components(disjunctive, body[1..])
  }

  function Added(disjunctive: bool, s: Statement): seq<Component>
    decreases s
  {
    match s
    case Restrict(negated, kind, a) => [Restriction(kind, negated, a)]
    case AnyOf(body) => if disjunctive then Components(true, body) else [Disjunction(false, Components(true, body))]
    case AllOf(body) => if disjunctive then [Conjunction(false, Components(false, body))] else Components(false, body)
  }

  // ---------------------------------------------------------------------------
  // Flattening keeps the meaning and gives trees of the built shape

  // A component that a connective of the given kind may hold.
  predicate Fits(disjunctive: bool, c: Component) {
    Built(c) && if disjunctive then !c.Disjunction? else !c.Conjunction?
  }

  lemma {:induction false} AddedFit(disjunctive: bool, s: Statement)
    ensures forall i :: 0 <= i < |Added(disjunctive, s)| ==> Fits(disjunctive, Added(disjunctive, s)[i])
    decreases s
  {
    if !s.Restrict? {
      ComponentsFit(s.AnyOf?, s.body);
    }
  }

  lemma {:induction false} ComponentsFit(disjunctive: bool, body: seq<Statement>)
    ensures forall i :: 0 <= i < |Components(disjunctive, body)| ==> Fits(disjunctive, Components(disjunctive, body)[i])
    decreases body
  {
    if body != [] {
      AddedFit(disjunctive, body[0]);
      ComponentsFit(disjunctive, body[1..]);
    }
  }

  // A connective's components agree with the statements they came from, on "some
  // of them hold" (v == true) under a disjunction and on "some of them fail"
  // (v == false) under a conjunction.
  ghost predicate OneIs(v: bool, cs: seq<Component>, d: Document) {
    exists c :: c in cs && Holds(c, d) == v
  }

  lemma {:induction false} AddedMean(v: bool, s: Statement, d: Document)
    ensures OneIs(v, Added(v, s), d) <==> Asks(s, d) == v
    decreases s
  {
    var cs := Added(v, s);
    if s.Restrict? {
      assert cs[0] in cs;
    } else {
      var inner := Components(s.AnyOf?, s.body);
      ComponentsMean(s.AnyOf?, s.body, d);
      if s.AnyOf? != v {
        assert cs == [if v then Conjunction(false, inner) else Disjunction(false, inner)];
        assert cs[0] in cs;
        assert OneIs(!v, inner, d) <==> exists i :: 0 <= i < |inner| && Holds(inner[i], d) == !v;
      }
    }
  }

  lemma {:induction false} ComponentsMean(v: bool, body: seq<Statement>, d: Document)
    ensures OneIs(v, Components(v, body), d) <==> exists i :: 0 <= i < |body| && Asks(body[i], d) == v
    decreases body
  {
    if body != [] {
      AddedMean(v, body[0], d);
      ComponentsMean(v, body[1..], d);
      assert forall i :: 0 < i < |body| ==> body[i] == body[1..][i - 1];
      assert forall i :: 0 <= i < |body[1..]| ==> body[1..][i] == body[i + 1];
    }
  }

  /** The flattened tree of a search block means what the nested blocks ask for. */
  lemma FlatteningKeepsMeaning(body: seq<Statement>, d: Document)
    ensures Holds(Conjunction(false, Components(false, body)), d) <==> Asks(AllOf(body), d)
    ensures Holds(Disjunction(false, Components(true, body)), d) <==> Asks(AnyOf(body), d)
    ensures Built(Conjunction(false, Components(false, body))) && Built(Disjunction(false, Components(true, body)))
  {
    ComponentsFit(false, body);
    ComponentsFit(true, body);
    ComponentsMean(false, body, d);
    ComponentsMean(true, body, d);
    var con, dis := Components(false, body), Components(true, body);
    assert OneIs(false, con, d) <==> exists i :: 0 <= i < |con| && !Holds(con[i], d);
    assert OneIs(true, dis, d) <==> exists i :: 0 <= i < |dis| && Holds(dis[i], d);
  }

  // ---------------------------------------------------------------------------
  // The connectives as objects

  datatype Entry = Leaf(restriction: Component) | Nested(connective: ConnectiveObject)

  function Connect(disjunctive: bool, cs: seq<Component>): Component {
    if disjunctive then Disjunction(false, cs) else Conjunction(false, cs)
  }

  class ConnectiveObject {
    const disjunctive: bool
    var components: seq<Entry>
    ghost var Tree: seq<Component>  // the components as values, however deep
    ghost var Repr: set<ConnectiveObject>

    ghost predicate Valid()
      reads this, Repr
      decreases Repr, 2
    {
      ValidUpTo(|components|)
    }

    ghost predicate ValidUpTo(n: nat)
      reads this, Repr
      decreases Repr, 1
    {
      && this in Repr
      && |Tree| == n <= |components|
      && (forall i :: 0 <= i < n ==> Represents(components[i], Tree[i]))
      && (forall i, j :: 0 <= i < j < n ==> Footprint(components[i]) !! Footprint(components[j]))
    }

    // The objects below an entry; no object hangs in two places.
    ghost function Footprint(e: Entry): set<ConnectiveObject>
      reads if e.Nested? then {e.connective} else {}
    {
      if e.Nested? then e.connective.Repr else {}
    }

    ghost predicate Represents(e: Entry, c: Component)
      requires this in Repr
      reads this, Repr
      decreases Repr, 0
    {
      match e
      case Leaf(restriction) => restriction.Restriction? && c == restriction
      case Nested(o) =>
        && o in Repr && o.Repr <= Repr && this !in o.Repr && o.Valid()
        && o.disjunctive != disjunctive && c == Connect(o.disjunctive, o.Tree)
    }

    constructor (disjunctive: bool)
      ensures Valid() && fresh(Repr) && Repr == {this}
      ensures this.disjunctive == disjunctive && Tree == []
    {
      this.disjunctive := disjunctive;
      components := [];
      Tree := [];
      Repr := {this};
    }

    method AddRestriction(restriction: Component)
      requires Valid() && restriction.Restriction?
      modifies this
      ensures Valid() && Repr == old(Repr)
      ensures Tree == old(Tree) + [restriction]
    {
      components := components + [Leaf(restriction)];
      Tree := Tree + [restriction];
      EntriesKept();
    }

    // Run the statements of a block with this connective as the scope.
    method Evaluate(body: seq<Statement>)
      requires Valid()
      modifies Repr
      ensures Valid() && fresh(Repr - old(Repr))
      ensures Tree == old(Tree) + Components(disjunctive, body)
      decreases body, 0
    {
      if body != [] {
        Run(body[0]);
        Evaluate(body[1..]);
      }
    }

    method Run(s: Statement)
      requires Valid()
      modifies Repr
      ensures Valid() && fresh(Repr - old(Repr))
      ensures Tree == old(Tree) + Added(disjunctive, s)
      decreases s
    {
      match s {
        case Restrict(negated, kind, atom) =>
          AddRestriction(Restriction(kind, negated, atom));
        case AnyOf(body) =>
          EvaluateNested(true, body);
        case AllOf(body) =>
          EvaluateNested(false, body);
      }
    }

    // What this object holds stays valid while something is added after it.
    twostate lemma EntriesKept()
      requires old(Valid()) && Repr == old(Repr) && old(Tree) <= Tree
      requires old(components) <= components
      requires forall o :: o in old(Repr) && o != this ==> unchanged(o)
      ensures this in Repr && |old(components)| == |old(Tree)|
      ensures forall i :: 0 <= i < |old(components)| ==>
                Represents(components[i], Tree[i]) && Footprint(components[i]) == old(Footprint(components[i]))
      ensures Tree == old(Tree) ==> ValidUpTo(|Tree|)
    {
      forall i | 0 <= i < |old(components)|
        ensures Represents(components[i], Tree[i])
        ensures Footprint(components[i]) == old(Footprint(components[i]))
      {
        assert old(Represents(components[i], Tree[i]));
      }
    }

    // Take the last entry, an object built on its own, into the tree.
    ghost method Absorb(c: ConnectiveObject)
      requires components != [] && components[|components| - 1] == Nested(c)
      requires ValidUpTo(|components| - 1) && c.Valid() && c.Repr !! Repr && c.disjunctive != disjunctive
      modifies this`Repr, this`Tree
      ensures Valid() && Repr == old(Repr) + c.Repr
      ensures Tree == old(Tree) + [Connect(c.disjunctive, c.Tree)]
    {
      forall i | 0 <= i < |components| - 1 ensures Footprint(components[i]) <= Repr {
        assert Represents(components[i], Tree[i]);
      }
      Repr := Repr + c.Repr;
      Tree := Tree + [Connect(c.disjunctive, c.Tree)];
    }

    // `any_of` and `all_of`: run a block in a connective of the given kind. Adding
    // a connective of this connective's own kind is a no-op that stays here.
    method EvaluateNested(kind: bool, body: seq<Statement>)
      requires Valid()
      modifies Repr
      ensures Valid() && fresh(Repr - old(Repr))
      ensures kind == disjunctive ==> Tree == old(Tree) + Components(kind, body)
      ensures kind != disjunctive ==> Tree == old(Tree) + [Connect(kind, Components(kind, body))]
      decreases body, 1
    {
      if kind == disjunctive {
        Evaluate(body);
      } else {
        var c := new ConnectiveObject(kind);
        components := components + [Nested(c)];
        c.Evaluate(body);
        assert c.Tree == Components(kind, body);
        EntriesKept();
        Absorb(c);
      }
    }
  }
}
