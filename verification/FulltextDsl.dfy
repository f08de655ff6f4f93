/**
  Building the fulltext tree: the query keeps a cursor, which `any` and `all` move
  for the length of a block and put back however the block ends.
 */
module FulltextDsl {
  import opened Fulltext
  import opened Wrappers

  // `Raise` leaves every enclosing block up to a `Guarded` one, which rescues.
  datatype Statement =
    | Keywords(join: Option<Name>, id: Id)
    | Any(body: seq<Statement>)
    | All(body: seq<Statement>)
    | Guarded(body: seq<Statement>)
    | Raise

  // The components a block adds to the composite under the cursor, and whether it
  // ran to its end.
  function Built(disjunctive: bool, body: seq<Statement>): (seq<Node>, bool)
    decreases body
  {
    if body == [] then ([], true)
    else
      var (first, ok) := Added(disjunctive, body[0]);
      if !ok then (first, false)
      else
        var (rest, done) := Built(disjunctive, body[1..]);
        (first + rest, done)
  }

  function Added(disjunctive: bool, s: Statement): (seq<Node>, bool)
    decreases s
  {
    match s
    case Keywords(join, id) => ([Search(join, id)], true)
    case Any(body) =>
      var (cs, ok) := Built(true, body);
      (if disjunctive then cs else [Composite(true, cs)], ok)
    case All(body) =>
      var (cs, ok) := Built(false, body);
      (if disjunctive then [Composite(false, cs)] else cs, ok)
    case Guarded(body) => (Built(disjunctive, body).0, true)
    case Raise => ([], false)
  }

  // The same with every block kept as a composite of its own.
  function Nested(body: seq<Statement>): (seq<Node>, bool)
    decreases body
  {
    if body == [] then ([], true)
    else
      var (first, ok) := NestedOne(body[0]);
      if !ok then (first, false)
      else
        var (rest, done) := Nested(body[1..]);
        (first + rest, done)
  }

  function NestedOne(s: Statement): (seq<Node>, bool)
    decreases s
  {
    match s
    case Keywords(join, id) => ([Search(join, id)], true)
    case Any(body) =>
      var (cs, ok) := Nested(body);
      ([Composite(true, cs)], ok)
    case All(body) =>
      var (cs, ok) := Nested(body);
      ([Composite(false, cs)], ok)
    case Guarded(body) => (Nested(body).0, true)
    case Raise => ([], false)
  }

  // ---------------------------------------------------------------------------
  // Flattening keeps the searches, their order and the meaning

  function Searches(n: Node): seq<Node> {
    match n
    case Search(_, _) => [n]
    case Composite(_, cs) => AllSearches(cs)
  }

  function AllSearches(cs: seq<Node>): seq<Node> {
    if cs == [] then [] else Searches(cs[0]) + AllSearches(cs[1..])
  }

  lemma {:induction false} AllSearchesAppend(xs: seq<Node>, ys: seq<Node>)
    ensures AllSearches(xs + ys) == AllSearches(xs) + AllSearches(ys)
  {
    if xs == [] {
      assert xs + ys == ys;
    } else {
      assert (xs + ys)[1..] == xs[1..] + ys;
      AllSearchesAppend(xs[1..], ys);
    }
  }

  ghost predicate OneIs(v: bool, cs: seq<Node>, d: Document) {
    exists i :: 0 <= i < |cs| && HasSearch(cs[i]) && Asks(cs[i], d) == v
  }

  predicate SomeSearch(cs: seq<Node>) {
    exists i :: 0 <= i < |cs| && HasSearch(cs[i])
  }

  lemma OneIsAppend(v: bool, xs: seq<Node>, ys: seq<Node>, d: Document)
    ensures OneIs(v, xs + ys, d) <==> OneIs(v, xs, d) || OneIs(v, ys, d)
    ensures SomeSearch(xs + ys) <==> SomeSearch(xs) || SomeSearch(ys)
  {
    assert forall i :: 0 <= i < |xs| ==> xs[i] == (xs + ys)[i];
    assert forall i :: 0 <= i < |ys| ==> ys[i] == (xs + ys)[|xs| + i];
  }

  // A composite agrees with its nested blocks, on "some of them hold" (v == true)
  // if it is a disjunction, on "some of them fail" (v == false) if a conjunction.
  ghost predicate Agree(v: bool, flat: seq<Node>, nested: seq<Node>, d: Document) {
    && (OneIs(v, flat, d) <==> OneIs(v, nested, d))
    && (SomeSearch(flat) <==> SomeSearch(nested))
    && AllSearches(flat) == AllSearches(nested)
  }

  predicate Fits(disjunctive: bool, n: Node)
    decreases n
  {
    n.Search? || (n.disjunctive != disjunctive && FitAll(n.disjunctive, n.components))
  }

  // No composite directly holds one of its own kind.
  predicate FitAll(disjunctive: bool, cs: seq<Node>)
    decreases cs
  {
    forall i :: 0 <= i < |cs| ==> Fits(disjunctive, cs[i])
  }

  lemma {:induction false} AddedAgrees(v: bool, s: Statement, d: Document)
    ensures Added(v, s).1 == NestedOne(s).1
    ensures Agree(v, Added(v, s).0, NestedOne(s).0, d) && FitAll(v, Added(v, s).0)
    decreases s
  {
    match s
    case Keywords(_, _) =>
    case Raise =>
    case Guarded(body) => BuiltAgrees(v, body, d);
    case _ =>
      var kind := s.Any?;
      BuiltAgrees(kind, s.body, d);
      if kind != v {
        CompositesAgree(v, Built(kind, s.body).0, Nested(s.body).0, d);
      } else {
        CompositeAlone(v, Nested(s.body).0, d);
      }
  }

  // A composite of one kind among the components of the other kind.
  lemma CompositesAgree(v: bool, flat: seq<Node>, nested: seq<Node>, d: Document)
    requires Agree(!v, flat, nested, d)
    ensures Agree(v, [Composite(!v, flat)], [Composite(!v, nested)], d)
  {
    var f, n := [Composite(!v, flat)], [Composite(!v, nested)];
    CompositeMeans(!v, flat, d);
    CompositeMeans(!v, nested, d);
    assert Searches(f[0]) == AllSearches(f) && Searches(n[0]) == AllSearches(n);
  }

  // A composite is as good as its components among others of its own kind.
  lemma CompositeAlone(v: bool, cs: seq<Node>, d: Document)
    ensures Agree(v, cs, [Composite(v, cs)], d)
  {
    var n := [Composite(v, cs)];
    CompositeMeans(v, cs, d);
    assert Searches(n[0]) == AllSearches(n);
  }

  lemma CompositeMeans(v: bool, cs: seq<Node>, d: Document)
    ensures Asks(Composite(v, cs), d) == (OneIs(v, cs, d) == v)
    ensures HasSearch(Composite(v, cs)) == SomeSearch(cs)
  {
  }

  lemma {:induction false} BuiltAgrees(v: bool, body: seq<Statement>, d: Document)
    ensures Built(v, body).1 == Nested(body).1
    ensures Agree(v, Built(v, body).0, Nested(body).0, d) && FitAll(v, Built(v, body).0)
    decreases body
  {
    if body != [] {
      AddedAgrees(v, body[0], d);
      BuiltAgrees(v, body[1..], d);
      var flat, flats := Added(v, body[0]).0, Built(v, body[1..]).0;
      var nested, nesteds := NestedOne(body[0]).0, Nested(body[1..]).0;
      OneIsAppend(v, flat, flats, d);
      OneIsAppend(v, nested, nesteds, d);
      AllSearchesAppend(flat, flats);
      AllSearchesAppend(nested, nesteds);
    }
  }

  /** Whatever blocks a query is built from, and wherever they are left, the tree
      under its root conjunction asks for what the nested blocks ask for. */
  lemma FlatteningKeepsMeaning(body: seq<Statement>, d: Document)
    ensures var flat, nested := Composite(false, Built(false, body).0), Composite(false, Nested(body).0);
            && HasSearch(flat) == HasSearch(nested)
            && Asks(flat, d) == Asks(nested, d)
            && Searches(flat) == Searches(nested)
            && FitAll(false, flat.components)
  {
    BuiltAgrees(false, body, d);
    var flat, nested := Built(false, body).0, Nested(body).0;
    assert Asks(Composite(false, flat), d) == !OneIs(false, flat, d);
    assert Asks(Composite(false, nested), d) == !OneIs(false, nested, d);
  }

  /** The query built by a block, if renderable, selects the documents the nested
      blocks ask for with empty blocks ignored, and all documents if nothing is
      searched for. No two joins may share a parameter. */
  lemma QueryMeansItsBlocks(body: seq<Statement>, d: Document)
    requires RenderableQuery(Composite(false, Built(false, body).0))
    requires DistinctNames(Composite(false, Built(false, body).0))
    ensures var p := ToParams(Composite(false, Built(false, body).0));
            var asked := Composite(false, Nested(body).0);
            (p.q.None? || Matches(p.q.value, p.joins, d)) <==> (HasSearch(asked) ==> Asks(asked, d))
  {
    QueryIsExact(Composite(false, Built(false, body).0));
    FlatteningKeepsMeaning(body, d);
  }

  // One empty `any` block is ignored; two of them give an empty query string, which
  // stands for no query at all.
  lemma TwoEmptyBlocks()
    ensures ToParams(Composite(false, Built(false, [Any([])]).0)) == NO_PARAMS
    ensures var root := Composite(false, Built(false, [Any([]), Any([])]).0);
            ToParams(root).q == Some(Blank) && !RenderableQuery(root)
  {
  }

  // ---------------------------------------------------------------------------
  // The composites as objects, and the query with its cursor

  datatype Entry = Leaf(search: Node) | Inner(composite: CompositeObject)

  class CompositeObject {
    const disjunctive: bool
    var components: seq<Entry>
    ghost var Tree: seq<Node>  // the components as values, however deep
    ghost var Repr: set<CompositeObject>

    ghost predicate Valid()
      reads this, Repr
      decreases Repr, 2
    {
      ValidUpTo(|components|)
    }

    ghost predicate ValidUpTo(n: nat)
      reads this, Repr
      decreases Repr, 1
    {
      && this in Repr
      && |Tree| == n <= |components|
      && (forall i :: 0 <= i < n ==> Represents(components[i], Tree[i]))
      && (forall i, j :: 0 <= i < j < n ==> Footprint(components[i]) !! Footprint(components[j]))
    }

    ghost function Footprint(e: Entry): set<CompositeObject>
      reads if e.Inner? then {e.composite} else {}
    {
      if e.Inner? then e.composite.Repr else {}
    }

    ghost predicate Represents(e: Entry, n: Node)
      requires this in Repr
      reads this, Repr
      decreases Repr, 0
    {
      match e
      case Leaf(search) => search.Search? && n == search
      case Inner(o) =>
        && o in Repr && o.Repr <= Repr && this !in o.Repr && o.Valid()
        && n == Composite(o.disjunctive, o.Tree)
    }

    constructor (disjunctive: bool)
      ensures Valid() && fresh(Repr) && Repr == {this}
      ensures this.disjunctive == disjunctive && Tree == []
    {
      this.disjunctive := disjunctive;
      components := [];
      Tree := [];
      Repr := {this};
    }

    method AddSearch(search: Node)
      requires Valid() && search.Search?
      modifies this
      ensures Valid() && Repr == old(Repr) && Tree == old(Tree) + [search]
    {
      components := components + [Leaf(search)];
      Tree := Tree + [search];
      EntriesKept();
    }

    // What this object holds stays valid while something is added after it.
    twostate lemma EntriesKept()
      requires old(Valid()) && Repr == old(Repr) && old(Tree) <= Tree
      requires old(components) <= components
      requires forall o :: o in old(Repr) && o != this ==> unchanged(o)
      ensures this in Repr && |old(components)| == |old(Tree)|
      ensures forall i :: 0 <= i < |old(components)| ==>
                Represents(components[i], Tree[i]) && Footprint(components[i]) == old(Footprint(components[i]))
      ensures Tree == old(Tree) ==> ValidUpTo(|Tree|)
    {
      forall i | 0 <= i < |old(components)|
        ensures Represents(components[i], Tree[i])
        ensures Footprint(components[i]) == old(Footprint(components[i]))
      {
        assert old(Represents(components[i], Tree[i]));
      }
    }

    // Take the last entry, an object built on its own, into the tree.
    ghost method Absorb(c: CompositeObject)
      requires components != [] && components[|components| - 1] == Inner(c)
      requires ValidUpTo(|components| - 1) && c.Valid() && c.Repr !! Repr
      modifies this`Repr, this`Tree
      ensures Valid() && Repr == old(Repr) + c.Repr
      ensures Tree == old(Tree) + [Composite(c.disjunctive, c.Tree)]
    {
      forall i | 0 <= i < |components| - 1 ensures Footprint(components[i]) <= Repr {
        assert Represents(components[i], Tree[i]);
      }
      Repr := Repr + c.Repr;
      Tree := Tree + [Composite(c.disjunctive, c.Tree)];
    }
  }

  class StandardQuery {
    const root: CompositeObject
    var fulltext: CompositeObject  // the cursor

    constructor ()
      ensures fulltext == root && fresh(root) && fresh(root.Repr)
      ensures root.Valid() && !root.disjunctive && root.Tree == []
    {
      var c := new CompositeObject(false);
      root := c;
      fulltext := c;
    }

    // Run a block; `done` is false if it was left early. The cursor is where it
    // was in either case.
    method Run(body: seq<Statement>) returns (done: bool)
      requires fulltext.Valid()
      modifies this, fulltext.Repr
      ensures fulltext == old(fulltext)
      ensures fulltext.Valid() && fresh(fulltext.Repr - old(fulltext.Repr))
      ensures fulltext.Tree == old(fulltext.Tree) + Built(fulltext.disjunctive, body).0
      ensures done == Built(fulltext.disjunctive, body).1
      decreases body, 0
    {
      if body == [] {
        return true;
      }
      done := Step(body[0]);
      if done {
        done := Run(body[1..]);
      }
    }

    method Step(s: Statement) returns (done: bool)
      requires fulltext.Valid()
      modifies this, fulltext.Repr
      ensures fulltext == old(fulltext)
      ensures fulltext.Valid() && fresh(fulltext.Repr - old(fulltext.Repr))
      ensures fulltext.Tree == old(fulltext.Tree) + Added(fulltext.disjunctive, s).0
      ensures done == Added(fulltext.disjunctive, s).1
      decreases s
    {
      match s {
        case Keywords(join, id) =>
          fulltext.AddSearch(Search(join, id));
          done := true;
        case Any(body) =>
          done := RunNested(true, body);
        case All(body) =>
          done := RunNested(false, body);
        case Guarded(body) =>
          var _ := Run(body);
          done := true;
        case Raise =>
          done := false;
      }
    }

    // `disjunction` and `conjunction`: move the cursor to a composite of the given
    // kind, run the block, and put the cursor back.
    method RunNested(kind: bool, body: seq<Statement>) returns (done: bool)
      requires fulltext.Valid()
      modifies this, fulltext.Repr
      ensures fulltext == old(fulltext)
      ensures fulltext.Valid() && fresh(fulltext.Repr - old(fulltext.Repr))
      ensures kind == fulltext.disjunctive ==> fulltext.Tree == old(fulltext.Tree) + Built(kind, body).0
      ensures kind != fulltext.disjunctive ==>
                fulltext.Tree == old(fulltext.Tree) + [Composite(kind, Built(kind, body).0)]
      ensures done == Built(kind, body).1
      decreases body, 1
    {
      var parent := fulltext;
      if kind == parent.disjunctive {
        done := Run(body);
      } else {
        var c := new CompositeObject(kind);
        parent.components := parent.components + [Inner(c)];
        fulltext := c;
        done := Run(body);
        assert c.Tree == Built(kind, body).0;
        parent.EntriesKept();
        parent.Absorb(c);
      }
      fulltext := parent;
    }
  }
}
