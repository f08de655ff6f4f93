/**
  Restrictions and connectives of the boolean scope, and the way they print
  themselves for the Lucene query parser.
 */
module Connective {

  // A positive boolean phrase such as `blog_id_i:2`, taken as a whole. A document
  // is the set of positive phrases it satisfies.
  type Atom = nat
  type Document = set<Atom>

  // Which override of `negated?` a restriction has: `EqualTo` with a nil value
  // turns it round, `AnyOf` and `AllOf` with an empty array pin it to false.
  datatype Kind = Plain | NilValue | EmptyList

  datatype Component =
    | Restriction(kind: Kind, negated: bool, atom: Atom)
    | Disjunction(negated: bool, components: seq<Component>)
    | Conjunction(negated: bool, components: seq<Component>)
  {
    predicate IsNegated() {
      match this
      case Restriction(Plain, n, _) => n
      case Restriction(NilValue, n, _) => !n
      case Restriction(EmptyList, _, _) => false
      case Disjunction(n, _) => n
      case Conjunction(n, _) => n
    }

    function Negate(): Component {
      match this
      case Restriction(k, n, a) => Restriction(k, !n, a)
      case Disjunction(n, cs) => Disjunction(!n, cs)
      case Conjunction(n, cs) => Conjunction(!n, cs)
    }
  }

  predicate AnyNegated(cs: seq<Component>) {
    exists i :: 0 <= i < |cs| && cs[i].IsNegated()
  }

  function Size(c: Component): (n: nat)
    ensures 1 <= n
  {
    match c
    case Restriction(_, _, _) => 1
    case Disjunction(_, cs) => 1 + SizeAll(cs)
    case Conjunction(_, cs) => 1 + SizeAll(cs)
  }

  function SizeAll(cs: seq<Component>): (n: nat)
    ensures forall i :: 0 <= i < |cs| ==> Size(cs[i]) <= n
  {
    if cs == [] then 0 else Size(cs[0]) + SizeAll(cs[1..])
  }

  function NegateAll(cs: seq<Component>): (ns: seq<Component>)
    ensures |ns| == |cs| && SizeAll(ns) == SizeAll(cs)
    ensures forall i :: 0 <= i < |cs| ==> ns[i] == cs[i].Negate()
  {
    if cs == [] then [] else [cs[0].Negate()] + NegateAll(cs[1..])
  }

  function Denormalize(c: Component): (r: Component)
    requires c.Disjunction?
    ensures r.Conjunction? && Size(r) == Size(c)
  {
    Conjunction(!c.negated, NegateAll(c.components))
  }

  // What a component prints. `Nil` is Ruby's nil, the phrase of an empty connective.
  datatype Connector = And | Or

  datatype Phrase =
    | Nil
    | Term(atom: Atom)
    | Minus(phrase: Phrase)
    | Group(connector: Connector, clauses: seq<Phrase>)

  function Joined(connector: Connector, negated: bool, phrases: seq<Phrase>): Phrase {
    if phrases == [] then Nil else
    var phrase := if |phrases| == 1 then phrases[0] else Group(connector, phrases);
    if negated then Minus(phrase) else phrase
  }

  function ToBooleanPhrase(c: Component): Phrase
    decreases Size(c), if c.Disjunction? then 1 else 0
  {
    match c
    case Restriction(_, _, a) => if c.IsNegated() then Minus(Term(a)) else Term(a)
    case Disjunction(negated, cs) =>
      if AnyNegated(cs) then ToBooleanPhrase(Denormalize(c))
      else Joined(Or, negated, PhraseAll(cs))
    case Conjunction(negated, cs) => Joined(And, negated, PhraseAll(cs))
  }

  function PhraseAll(cs: seq<Component>): (ps: seq<Phrase>)
    ensures |ps| == |cs|
    ensures forall i :: 0 <= i < |cs| ==> ps[i] == ToBooleanPhrase(cs[i])
    decreases SizeAll(cs), 2
  {
    if cs == [] then [] else [ToBooleanPhrase(cs[0])] + PhraseAll(cs[1..])
  }

  // ---------------------------------------------------------------------------
  // How Lucene reads a phrase

  // A clause is a term or a bracketed, non-empty list of clauses, with at most
  // one minus sign in front. Anything else does not parse.
  predicate Parses(p: Phrase)
    decreases p, 1
  {
    if p.Minus? then ParsesPlain(p.phrase) else ParsesPlain(p)
  }

  predicate ParsesPlain(p: Phrase)
    decreases p, 0
  {
    match p
    case Term(_) => true
    case Group(_, ps) => ps != [] && forall i :: 0 <= i < |ps| ==> Parses(ps[i])
    case _ => false
  }

  // A nested phrase. In an AND group plain clauses are required, in an OR group
  // one of them is enough; minus clauses are prohibited in both, and a group of
  // minus clauses alone selects nothing.
  ghost predicate Matches(p: Phrase, d: Document)
    decreases p, 0
  {
    match p
    case Term(a) => a in d
    case Group(And, ps) =>
      && (exists i :: 0 <= i < |ps| && !ps[i].Minus?)
      && forall i :: 0 <= i < |ps| ==> Clause(ps[i], d)
    case Group(Or, ps) =>
      && (exists i :: 0 <= i < |ps| && !ps[i].Minus? && Matches(ps[i], d))
      && forall i :: 0 <= i < |ps| && ps[i].Minus? ==> Clause(ps[i], d)
    case _ => false
  }

  // What a clause demands of a document inside a group.
  ghost predicate Clause(p: Phrase, d: Document)
    decreases p, 1
  {
    if p.Minus? then !Matches(p.phrase, d) else Matches(p, d)
  }

  // A whole filter query. Solr reads a purely negative one as a complement.
  ghost predicate Selects(p: Phrase, d: Document) {
    if p.Group? && forall i :: 0 <= i < |p.clauses| ==> p.clauses[i].Minus?
    then forall i :: 0 <= i < |p.clauses| ==> Clause(p.clauses[i], d)
    else Clause(p, d)
  }

  // ---------------------------------------------------------------------------
  // What a component means

  ghost predicate Holds(c: Component, d: Document) {
    match c
    case Restriction(Plain, negated, a) => (a in d) != negated
    case Restriction(NilValue, negated, a) => (a !in d) != negated
    case Restriction(EmptyList, _, a) => a in d
    case Disjunction(negated, cs) => (exists i :: 0 <= i < |cs| && Holds(cs[i], d)) != negated
    case Conjunction(negated, cs) => (forall i :: 0 <= i < |cs| ==> Holds(cs[i], d)) != negated
  }

  // The trees the scope DSL builds: connectives are not negated and none directly
  // holds one of its own kind.
  predicate Built(c: Component) {
    match c
    case Restriction(_, _, _) => true
    case Disjunction(negated, cs) =>
      !negated && forall i :: 0 <= i < |cs| ==> !cs[i].Disjunction? && Built(cs[i])
    case Conjunction(negated, cs) =>
      !negated && forall i :: 0 <= i < |cs| ==> !cs[i].Conjunction? && Built(cs[i])
  }

  // Whether a component comes out with a minus sign in front, read off the tree.
  predicate PrintsMinus(c: Component) {
    match c
    case Restriction(_, _, _) => c.IsNegated()
    case Disjunction(_, cs) => AnyNegated(cs) || (|cs| == 1 && PrintsMinus(cs[0]))
    case Conjunction(_, cs) => |cs| == 1 && PrintsMinus(cs[0])
  }

  // The condition under which a component can be used inside a group.
  predicate Readable(c: Component) {
    match c
    case Restriction(_, _, _) => true
    case Conjunction(_, cs) =>
      && cs != []
      && (forall i :: 0 <= i < |cs| ==> Readable(cs[i]))
      && (|cs| > 1 ==> exists i :: 0 <= i < |cs| && !PrintsMinus(cs[i]))
    case Disjunction(_, cs) =>
      && cs != []
      && (forall i :: 0 <= i < |cs| ==> Readable(cs[i]))
      && (|cs| > 1 ==> forall i :: 0 <= i < |cs| && cs[i].Conjunction? ==> !PrintsMinus(cs[i]))
      && (AnyNegated(cs) ==> forall i :: 0 <= i < |cs| && cs[i].Restriction? ==> !cs[i].kind.EmptyList?)
  }

  // The condition for a component that is a whole filter query.
  predicate ReadableFilter(c: Component) {
    if c.Restriction? then true
    else if |c.components| == 1 then ReadableFilter(c.components[0])
    else if c.Conjunction? then
      c.components != [] && forall i :: 0 <= i < |c.components| ==> Readable(c.components[i])
    else Readable(c)
  }

  // ---------------------------------------------------------------------------
  // The printed phrase of a built component, one connective at a time

  lemma PhraseOfNegated(c: Component)
    requires Built(c) && !c.Disjunction?
    ensures c.Restriction? && c.kind.EmptyList? ==>
              ToBooleanPhrase(c) == ToBooleanPhrase(c.Negate()) == Term(c.atom)
    ensures c.Restriction? && !c.kind.EmptyList? ==>
              ToBooleanPhrase(c.Negate()) == if c.IsNegated() then Term(c.atom) else Minus(Term(c.atom))
    ensures c.Conjunction? ==>
              ToBooleanPhrase(c.Negate()) == if c.components == [] then Nil else Minus(ToBooleanPhrase(c))
  {
  }

  lemma {:induction false} MinusIffPrintsMinus(c: Component)
    requires Built(c)
    ensures ToBooleanPhrase(c).Minus? <==> PrintsMinus(c)
  {
    if !c.Restriction? {
      if |c.components| == 1 {
        MinusIffPrintsMinus(c.components[0]);
      }
    }
  }

  ghost predicate Reads(c: Component, d: Document) {
    Clause(ToBooleanPhrase(c), d)
  }

  lemma SingleChildPhrase(c: Component)
    requires Built(c) && !c.Restriction? && |c.components| == 1
    ensures ToBooleanPhrase(c) == ToBooleanPhrase(c.components[0])
  {
    if c.Disjunction? && AnyNegated(c.components) {
      PhraseOfNegated(c.components[0]);
      assert NegateAll(c.components)[0] == c.components[0].Negate();
    }
  }

  lemma ReadsConjunction(cs: seq<Component>, d: Document)
    requires Built(Conjunction(false, cs)) && |cs| > 1
    ensures Reads(Conjunction(false, cs), d) <==>
              && (exists i :: 0 <= i < |cs| && !PrintsMinus(cs[i]))
              && forall i :: 0 <= i < |cs| ==> Reads(cs[i], d)
  {
    var ps := PhraseAll(cs);
    forall i | 0 <= i < |cs| ensures ps[i].Minus? == PrintsMinus(cs[i]) && Clause(ps[i], d) == Reads(cs[i], d) {
      MinusIffPrintsMinus(cs[i]);
    }
    assert ToBooleanPhrase(Conjunction(false, cs)) == Group(And, ps);
    assert Matches(Group(And, ps), d) <==>
      (exists i :: 0 <= i < |ps| && !ps[i].Minus?) && forall i :: 0 <= i < |ps| ==> Clause(ps[i], d);
  }

  lemma ReadsPlainDisjunction(cs: seq<Component>, d: Document)
    requires Built(Disjunction(false, cs)) && |cs| > 1 && !AnyNegated(cs)
    ensures Reads(Disjunction(false, cs), d) <==>
              && (exists i :: 0 <= i < |cs| && !PrintsMinus(cs[i]) && Reads(cs[i], d))
              && forall i :: 0 <= i < |cs| && PrintsMinus(cs[i]) ==> Reads(cs[i], d)
  {
    var ps := PhraseAll(cs);
    forall i | 0 <= i < |cs| ensures ps[i].Minus? == PrintsMinus(cs[i]) && Clause(ps[i], d) == Reads(cs[i], d) {
      MinusIffPrintsMinus(cs[i]);
    }
    assert ToBooleanPhrase(Disjunction(false, cs)) == Group(Or, ps);
    assert Matches(Group(Or, ps), d) <==>
      && (exists i :: 0 <= i < |ps| && !ps[i].Minus? && Matches(ps[i], d))
      && forall i :: 0 <= i < |ps| && ps[i].Minus? ==> Clause(ps[i], d);
  }

  // A component that can be negated inside a denormalized disjunction without
  // doubling a minus sign.
  predicate Negatable(c: Component) {
    c.Conjunction? ==> ToBooleanPhrase(c) != Nil && !PrintsMinus(c)
  }

  predicate IsEmptyList(c: Component) {
    c.Restriction? && c.kind.EmptyList?
  }

  // Negating a component turns its reading round, except for an empty `AnyOf` or
  // `AllOf`, which reads the same.
  lemma ReadsNegated(c: Component, d: Document)
    requires Built(c) && !c.Disjunction? && Negatable(c)
    ensures Reads(c.Negate(), d) == if IsEmptyList(c) then Reads(c, d) else !Reads(c, d)
    ensures c.IsNegated() ==> !ToBooleanPhrase(c.Negate()).Minus?
  {
    PhraseOfNegated(c);
    MinusIffPrintsMinus(c);
  }

  lemma ReadsDenormalized(cs: seq<Component>, d: Document)
    requires Built(Disjunction(false, cs)) && |cs| > 1 && AnyNegated(cs)
    requires forall i :: 0 <= i < |cs| ==> Negatable(cs[i])
    ensures Reads(Disjunction(false, cs), d) <==>
              exists i :: 0 <= i < |cs| && Reads(cs[i], d) != IsEmptyList(cs[i])
  {
    var ns := NegateAll(cs);
    var ps := PhraseAll(ns);
    forall i | 0 <= i < |cs|
      ensures Clause(ps[i], d) == (Reads(cs[i], d) == IsEmptyList(cs[i]))
      ensures cs[i].IsNegated() ==> !ps[i].Minus?
    {
      ReadsNegated(cs[i], d);
      assert ps[i] == ToBooleanPhrase(cs[i].Negate());
    }
    assert ToBooleanPhrase(Disjunction(false, cs)) == Minus(Group(And, ps));
    assert Matches(Group(And, ps), d) <==>
      (exists i :: 0 <= i < |ps| && !ps[i].Minus?) && forall i :: 0 <= i < |ps| ==> Clause(ps[i], d);
  }

  // ---------------------------------------------------------------------------
  // A readable component means what it says

  lemma {:induction false} ReadableParses(c: Component)
    requires Built(c) && Readable(c)
    ensures Parses(ToBooleanPhrase(c))
  {
    if !c.Restriction? {
      var cs := c.components;
      forall i | 0 <= i < |cs| ensures Parses(ToBooleanPhrase(cs[i])) {
        ReadableParses(cs[i]);
      }
      if |cs| == 1 {
        SingleChildPhrase(c);
      } else if c.Disjunction? && AnyNegated(cs) {
        var ns := NegateAll(cs);
        forall i | 0 <= i < |cs| ensures Parses(PhraseAll(ns)[i]) {
          PhraseOfNegated(cs[i]);
          MinusIffPrintsMinus(cs[i]);
          assert PhraseAll(ns)[i] == ToBooleanPhrase(cs[i].Negate());
        }
        assert ToBooleanPhrase(c) == Minus(Group(And, PhraseAll(ns)));
      } else {
        assert ToBooleanPhrase(c) == Group(if c.Disjunction? then Or else And, PhraseAll(cs));
      }
    }
  }

  lemma {:induction false} ReadableMeansItself(c: Component, d: Document)
    requires Built(c) && Readable(c)
    ensures Reads(c, d) == Holds(c, d)
  {
    if c.Restriction? {
      assert Matches(Term(c.atom), d) <==> c.atom in d;
    } else {
      var cs := c.components;
      forall i | 0 <= i < |cs| ensures Reads(cs[i], d) == Holds(cs[i], d) && ToBooleanPhrase(cs[i]) != Nil {
        ReadableMeansItself(cs[i], d);
        ReadableParses(cs[i]);
      }
      if |cs| == 1 {
        SingleChildPhrase(c);
      } else if c.Conjunction? {
        ReadsConjunction(cs, d);
      } else if AnyNegated(cs) {
        ReadsDenormalized(cs, d);
      } else {
        assert forall i :: 0 <= i < |cs| ==> !PrintsMinus(cs[i]);
        ReadsPlainDisjunction(cs, d);
      }
    }
  }
}
