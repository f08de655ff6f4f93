/**
  When the printed scope means what was asked for: an exact condition on the tree,
  for trees whose restrictions are independent of each other.
 */
module ScopeMeaning {
  import opened Connective
  import opened Order
  import opened Wrappers

  function Atoms(c: Component): set<Atom> {
    match c
    case Restriction(_, _, a) => {a}
    case Disjunction(_, cs) => AtomsAll(cs)
    case Conjunction(_, cs) => AtomsAll(cs)
  }

  function AtomsAll(cs: seq<Component>): (s: set<Atom>)
    ensures forall i :: 0 <= i < |cs| ==> Atoms(cs[i]) <= s
    ensures forall a :: a in s ==> exists i :: 0 <= i < |cs| && a in Atoms(cs[i])
  {
    if cs == [] then {} else Atoms(cs[0]) + AtomsAll(cs[1..])
  }

  // No positive phrase is used by two components of one connective, so a document
  // can be chosen for each component on its own.
  predicate Independent(c: Component) {
    c.Restriction? || IndependentAll(c.components)
  }

  predicate IndependentAll(cs: seq<Component>) {
    && (forall i :: 0 <= i < |cs| ==> Independent(cs[i]))
    && forall i, j :: 0 <= i < j < |cs| ==> Atoms(cs[i]) !! Atoms(cs[j])
  }

  // No empty connective anywhere.
  predicate Full(c: Component) {
    c.Restriction? || (c.components != [] && forall i :: 0 <= i < |c.components| ==> Full(c.components[i]))
  }

  ghost predicate MeansItself(c: Component) {
    forall d :: Reads(c, d) == Holds(c, d)
  }

  // ---------------------------------------------------------------------------
  // A component looks at its own atoms only

  function PhraseAtoms(p: Phrase): set<Atom> {
    match p
    case Nil => {}
    case Term(a) => {a}
    case Minus(q) => PhraseAtoms(q)
    case Group(_, ps) => set i, a | 0 <= i < |ps| && a in PhraseAtoms(ps[i]) :: a
  }

  lemma {:induction false} PhraseFrame(p: Phrase, d: Document, e: Document)
    requires d * PhraseAtoms(p) == e * PhraseAtoms(p)
    ensures Matches(p, d) == Matches(p, e)
    ensures Clause(p, d) == Clause(p, e)
  {
    match p
    case Nil =>
    case Term(a) => assert a in d <==> a in d * {a};
    case Minus(q) => PhraseFrame(q, d, e);
    case Group(_, ps) =>
      forall i | 0 <= i < |ps| ensures Matches(ps[i], d) == Matches(ps[i], e) && Clause(ps[i], d) == Clause(ps[i], e) {
        var s := PhraseAtoms(ps[i]);
        assert s <= PhraseAtoms(p);
        assert d * s == (d * PhraseAtoms(p)) * s;
        PhraseFrame(ps[i], d, e);
      }
  }

  lemma {:induction false} PrintsOwnAtoms(c: Component)
    ensures PhraseAtoms(ToBooleanPhrase(c)) <= Atoms(c)
    decreases Size(c), if c.Disjunction? then 1 else 0
  {
    if !c.Restriction? {
      var cs := c.components;
      if c.Disjunction? && AnyNegated(cs) {
        var n := Denormalize(c);
        PrintsOwnAtoms(n);
        forall a | a in Atoms(n) ensures a in Atoms(c) {
          var i :| 0 <= i < |cs| && a in Atoms(n.components[i]);
          assert a in Atoms(cs[i]);
        }
      } else {
        forall i | 0 <= i < |cs| ensures PhraseAtoms(PhraseAll(cs)[i]) <= AtomsAll(cs) {
          PrintsOwnAtoms(cs[i]);
        }
      }
    }
  }

  lemma {:induction false} HoldsFrame(c: Component, d: Document, e: Document)
    requires d * Atoms(c) == e * Atoms(c)
    ensures Holds(c, d) == Holds(c, e)
  {
    if c.Restriction? {
      assert c.atom in d <==> c.atom in d * Atoms(c);
      assert c.atom in e <==> c.atom in e * Atoms(c);
    } else {
      forall i | 0 <= i < |c.components| ensures Holds(c.components[i], d) == Holds(c.components[i], e) {
        var s := Atoms(c.components[i]);
        assert d * s == (d * Atoms(c)) * s;
        HoldsFrame(c.components[i], d, e);
      }
    }
  }

  lemma Frame(c: Component, d: Document, e: Document)
    requires d * Atoms(c) == e * Atoms(c)
    ensures Holds(c, d) == Holds(c, e) && Reads(c, d) == Reads(c, e)
  {
    HoldsFrame(c, d, e);
    PrintsOwnAtoms(c);
    var s := PhraseAtoms(ToBooleanPhrase(c));
    assert d * s == (d * Atoms(c)) * s;
    PhraseFrame(ToBooleanPhrase(c), d, e);
  }

  // One document that looks to each component like the document chosen for it.
  function Glue(cs: seq<Component>, docs: seq<Document>): Document
    requires |docs| == |cs|
  {
    set i, a | 0 <= i < |cs| && a in docs[i] * Atoms(cs[i]) :: a
  }

  lemma GlueAgrees(cs: seq<Component>, docs: seq<Document>)
    requires IndependentAll(cs) && |docs| == |cs|
    ensures forall i :: 0 <= i < |cs| ==>
              && Holds(cs[i], Glue(cs, docs)) == Holds(cs[i], docs[i])
              && Reads(cs[i], Glue(cs, docs)) == Reads(cs[i], docs[i])
  {
    var g := Glue(cs, docs);
    forall i | 0 <= i < |cs|
      ensures Holds(cs[i], g) == Holds(cs[i], docs[i]) && Reads(cs[i], g) == Reads(cs[i], docs[i])
    {
      forall a | a in g * Atoms(cs[i]) ensures a in docs[i] {
        var j :| 0 <= j < |cs| && a in docs[j] * Atoms(cs[j]);
        assert j == i;
      }
      assert g * Atoms(cs[i]) == docs[i] * Atoms(cs[i]);
      Frame(cs[i], g, docs[i]);
    }
  }

  // ---------------------------------------------------------------------------
  // Independent components can be made to hold, or to fail, one by one

  function DocFor(c: Component, v: bool): Document {
    match c
    case Restriction(Plain, negated, a) => if v != negated then {a} else {}
    case Restriction(NilValue, negated, a) => if v != negated then {} else {a}
    case Restriction(EmptyList, _, a) => if v then {a} else {}
    case Disjunction(_, cs) => Glue(cs, seq(|cs|, i requires 0 <= i < |cs| => DocFor(cs[i], v)))
    case Conjunction(_, cs) => Glue(cs, seq(|cs|, i requires 0 <= i < |cs| => DocFor(cs[i], v)))
  }

  lemma {:induction false} DocForHolds(c: Component, v: bool)
    requires Built(c) && Independent(c) && Full(c)
    ensures Holds(c, DocFor(c, v)) == v
  {
    if !c.Restriction? {
      var cs := c.components;
      var docs := seq(|cs|, i requires 0 <= i < |cs| => DocFor(cs[i], v));
      forall i | 0 <= i < |cs| ensures Holds(cs[i], docs[i]) == v {
        DocForHolds(cs[i], v);
      }
      GlueAgrees(cs, docs);
      assert Holds(cs[0], Glue(cs, docs)) == v;
    }
  }

  ghost predicate NeverReads(c: Component, v: bool) {
    forall d :: Reads(c, d) != v
  }

  ghost function ReadingDoc(c: Component, v: bool): (d: Document)
    requires !NeverReads(c, v)
    ensures Reads(c, d) == v
  {
    var d :| Reads(c, d) == v;
    d
  }

  // ---------------------------------------------------------------------------
  // Documents on which a connective is read wrongly

  predicate Usable(cs: seq<Component>) {
    IndependentAll(cs) && forall i :: 0 <= i < |cs| ==> Built(cs[i]) && Full(cs[i])
  }

  function DocsFor(cs: seq<Component>, v: bool): (docs: seq<Document>)
    ensures |docs| == |cs|
    ensures forall i :: 0 <= i < |cs| ==> docs[i] == DocFor(cs[i], v)
  {
    seq(|cs|, i requires 0 <= i < |cs| => DocFor(cs[i], v))
  }

  lemma DocsForHold(cs: seq<Component>, v: bool)
    requires Usable(cs)
    ensures forall i :: 0 <= i < |cs| ==> Holds(cs[i], DocsFor(cs, v)[i]) == v
  {
    forall i | 0 <= i < |cs| ensures Holds(cs[i], DocFor(cs[i], v)) == v {
      DocForHolds(cs[i], v);
    }
  }

  // A component read wrongly makes its siblings' conjunction (v == true) or
  // disjunction (v == false) read wrongly too.
  lemma LiftDifference(cs: seq<Component>, v: bool, i: nat, d: Document) returns (g: Document)
    requires Usable(cs) && i < |cs| && Reads(cs[i], d) != Holds(cs[i], d)
    ensures (forall j :: 0 <= j < |cs| ==> Reads(cs[j], g) == v) !=
            (forall j :: 0 <= j < |cs| ==> Holds(cs[j], g) == v)
  {
    DocsForHold(cs, v);
    var docs: seq<Document>;
    if k :| 0 <= k < |cs| && NeverReads(cs[k], v) {
      docs := DocsFor(cs, v);
      GlueAgrees(cs, docs);
      assert Reads(cs[k], docs[k]) != v;
    } else if Holds(cs[i], d) == v {
      docs := DocsFor(cs, v)[i := d];
      GlueAgrees(cs, docs);
      assert Reads(cs[i], docs[i]) != v;
    } else {
      docs := seq(|cs|, k requires 0 <= k < |cs| => ReadingDoc(cs[k], v))[i := d];
      GlueAgrees(cs, docs);
      assert Holds(cs[i], docs[i]) != v;
    }
    g := Glue(cs, docs);
  }

  // A conjunction whose clauses all come out with a minus sign selects nothing.
  lemma AllMinusConjunctionDiffers(cs: seq<Component>) returns (d: Document)
    requires Built(Conjunction(false, cs)) && Usable(cs) && |cs| > 1
    requires forall i :: 0 <= i < |cs| ==> PrintsMinus(cs[i])
    ensures Reads(Conjunction(false, cs), d) != Holds(Conjunction(false, cs), d)
  {
    var c := Conjunction(false, cs);
    d := DocFor(c, true);
    DocForHolds(c, true);
    ReadsConjunction(cs, d);
  }

  // In an undenormalized disjunction a clause with a minus sign is prohibited
  // instead of being one of the alternatives.
  lemma MinusInDisjunctionDiffers(cs: seq<Component>, m: nat) returns (g: Document)
    requires Built(Disjunction(false, cs)) && Usable(cs) && |cs| > 1 && !AnyNegated(cs)
    requires m < |cs| && PrintsMinus(cs[m])
    ensures Reads(Disjunction(false, cs), g) != Holds(Disjunction(false, cs), g)
  {
    DocsForHold(cs, true);
    DocsForHold(cs, false);
    var docs: seq<Document>;
    if n :| 0 <= n < |cs| && PrintsMinus(cs[n]) && !NeverReads(cs[n], false) {
      docs := DocsFor(cs, true)[n := ReadingDoc(cs[n], false)];
      GlueAgrees(cs, docs);
      var k := if n == 0 then 1 else 0;
      assert !Reads(cs[n], docs[n]) && Holds(cs[k], docs[k]);
    } else if p :| 0 <= p < |cs| && !PrintsMinus(cs[p]) && NeverReads(cs[p], false) {
      docs := DocsFor(cs, false);
      GlueAgrees(cs, docs);
      assert Reads(cs[p], docs[p]);
    } else {
      docs := seq(|cs|, k requires 0 <= k < |cs| =>
        if PrintsMinus(cs[k]) then DocFor(cs[k], true) else ReadingDoc(cs[k], false));
      GlueAgrees(cs, docs);
      assert Holds(cs[m], docs[m]);
    }
    g := Glue(cs, docs);
    ReadsPlainDisjunction(cs, g);
  }

  // Negating an empty `AnyOf` or `AllOf` changes nothing, so a denormalized
  // disjunction takes it the wrong way round.
  lemma EmptyListInDenormalizedDiffers(cs: seq<Component>, e: nat) returns (g: Document)
    requires Built(Disjunction(false, cs)) && Usable(cs) && |cs| > 1 && AnyNegated(cs)
    requires forall i :: 0 <= i < |cs| ==> Negatable(cs[i])
    requires e < |cs| && IsEmptyList(cs[e])
    ensures Reads(Disjunction(false, cs), g) != Holds(Disjunction(false, cs), g)
  {
    DocsForHold(cs, false);
    GlueAgrees(cs, DocsFor(cs, false));
    g := Glue(cs, DocsFor(cs, false));
    ReadsDenormalized(cs, g);
    ReadableMeansItself(cs[e], g);
  }

  // ---------------------------------------------------------------------------
  // The exact condition

  lemma NegationParses(c: Component)
    requires Built(c) && !c.Disjunction? && Parses(ToBooleanPhrase(c.Negate()))
    ensures Parses(ToBooleanPhrase(c)) && Negatable(c)
  {
    PhraseOfNegated(c);
    MinusIffPrintsMinus(c);
    if c.Restriction? {
      assert ParsesPlain(Term(c.atom));
    } else {
      assert ParsesPlain(ToBooleanPhrase(c));
    }
  }

  lemma {:induction false} ParsesMeansFull(c: Component)
    requires Built(c) && Parses(ToBooleanPhrase(c))
    ensures Full(c)
    ensures !c.Restriction? ==> forall i :: 0 <= i < |c.components| ==> Parses(ToBooleanPhrase(c.components[i]))
    ensures c.Disjunction? && |c.components| > 1 && AnyNegated(c.components) ==>
              forall i :: 0 <= i < |c.components| ==> Negatable(c.components[i])
  {
    if !c.Restriction? {
      var cs := c.components;
      forall i | 0 <= i < |cs|
        ensures Parses(ToBooleanPhrase(cs[i])) && Full(cs[i])
        ensures c.Disjunction? && |cs| > 1 && AnyNegated(cs) ==> Negatable(cs[i])
      {
        if |cs| == 1 {
          SingleChildPhrase(c);
        } else if c.Disjunction? && AnyNegated(cs) {
          var ps := PhraseAll(NegateAll(cs));
          assert ToBooleanPhrase(c) == Minus(Group(And, ps));
          assert Parses(ps[i]) && ps[i] == ToBooleanPhrase(cs[i].Negate());
          NegationParses(cs[i]);
        } else {
          assert ToBooleanPhrase(c) == Group(if c.Disjunction? then Or else And, PhraseAll(cs));
          assert Parses(PhraseAll(cs)[i]);
        }
        ParsesMeansFull(cs[i]);
      }
    }
  }

  // The connective itself is put together in a way Lucene reads as intended.
  predicate Sound(c: Component) {
    c.Restriction? || |c.components| <= 1 ||
    if c.Conjunction? then exists i :: 0 <= i < |c.components| && !PrintsMinus(c.components[i])
    else if AnyNegated(c.components) then forall i :: 0 <= i < |c.components| ==> !IsEmptyList(c.components[i])
    else forall i :: 0 <= i < |c.components| ==> !PrintsMinus(c.components[i])
  }

  lemma UnsoundDiffers(c: Component) returns (d: Document)
    requires Built(c) && Independent(c) && Parses(ToBooleanPhrase(c)) && !Sound(c)
    ensures Reads(c, d) != Holds(c, d)
  {
    var cs := c.components;
    ParsesMeansFull(c);
    if c.Conjunction? {
      d := AllMinusConjunctionDiffers(cs);
    } else if AnyNegated(cs) {
      var e :| 0 <= e < |cs| && IsEmptyList(cs[e]);
      d := EmptyListInDenormalizedDiffers(cs, e);
    } else {
      var m :| 0 <= m < |cs| && PrintsMinus(cs[m]);
      d := MinusInDisjunctionDiffers(cs, m);
    }
  }

  lemma DifferenceRises(c: Component, i: nat, d: Document) returns (g: Document)
    requires Built(c) && Independent(c) && Parses(ToBooleanPhrase(c)) && Sound(c)
    requires !c.Restriction? && i < |c.components| && Reads(c.components[i], d) != Holds(c.components[i], d)
    ensures Reads(c, g) != Holds(c, g)
  {
    var cs := c.components;
    ParsesMeansFull(c);
    if |cs| == 1 {
      SingleChildPhrase(c);
      g := d;
    } else {
      g := LiftDifference(cs, c.Conjunction?, i, d);
      if c.Conjunction? {
        ReadsConjunction(cs, g);
      } else if AnyNegated(cs) {
        ReadsDenormalized(cs, g);
      } else {
        ReadsPlainDisjunction(cs, g);
      }
    }
  }

  // A component that parses but is not readable is read wrongly on some document.
  lemma {:induction false} UnreadableDiffers(c: Component) returns (d: Document)
    requires Built(c) && Independent(c) && Parses(ToBooleanPhrase(c)) && !Readable(c)
    ensures Reads(c, d) != Holds(c, d)
  {
    ParsesMeansFull(c);
    if !Sound(c) {
      d := UnsoundDiffers(c);
    } else {
      var i :| 0 <= i < |c.components| && !Readable(c.components[i]);
      d := UnreadableDiffers(c.components[i]);
      d := DifferenceRises(c, i, d);
    }
  }

  /** Inside a group, a component's phrase parses and selects exactly the documents
      the component asks for if and only if the component is readable. */
  lemma ReadableIsExact(c: Component)
    requires Built(c) && Independent(c)
    ensures Readable(c) <==> Parses(ToBooleanPhrase(c)) && MeansItself(c)
  {
    if Readable(c) {
      ReadableParses(c);
      forall d ensures Reads(c, d) == Holds(c, d) {
        ReadableMeansItself(c, d);
      }
    }
    if Parses(ToBooleanPhrase(c)) && !Readable(c) {
      var d := UnreadableDiffers(c);
    }
  }

  // ---------------------------------------------------------------------------
  // A component as a filter query of its own

  ghost predicate FilterMeansItself(c: Component) {
    forall d :: Selects(ToBooleanPhrase(c), d) == Holds(c, d)
  }

  lemma SelectsConnective(c: Component, d: Document)
    requires Built(c) && !c.Restriction? && |c.components| > 1
    ensures c.Conjunction? ==>
              (Selects(ToBooleanPhrase(c), d) <==> forall i :: 0 <= i < |c.components| ==> Reads(c.components[i], d))
    ensures c.Disjunction? && !AnyNegated(c.components) &&
              (forall i :: 0 <= i < |c.components| ==> PrintsMinus(c.components[i])) ==>
              (Selects(ToBooleanPhrase(c), d) <==> forall i :: 0 <= i < |c.components| ==> Reads(c.components[i], d))
    ensures c.Disjunction? && (AnyNegated(c.components) ||
              exists i :: 0 <= i < |c.components| && !PrintsMinus(c.components[i])) ==>
              Selects(ToBooleanPhrase(c), d) == Reads(c, d)
  {
    var cs := c.components;
    var ps := PhraseAll(cs);
    forall i | 0 <= i < |cs| ensures ps[i].Minus? == PrintsMinus(cs[i]) && Clause(ps[i], d) == Reads(cs[i], d) {
      MinusIffPrintsMinus(cs[i]);
    }
    if c.Conjunction? {
      ReadsConjunction(cs, d);
      assert ToBooleanPhrase(c) == Group(And, ps);
    } else if AnyNegated(cs) {
      assert ToBooleanPhrase(c) == Minus(Group(And, PhraseAll(NegateAll(cs))));
    } else {
      assert ToBooleanPhrase(c) == Group(Or, ps);
    }
  }

  // Documents that make one of some components hold, but not all of them read so.
  lemma OneHoldsNotAllRead(cs: seq<Component>) returns (docs: seq<Document>)
    requires Usable(cs) && |cs| > 1
    requires exists n :: 0 <= n < |cs| && !NeverReads(cs[n], false)
    ensures |docs| == |cs|
    ensures exists i :: 0 <= i < |cs| && Holds(cs[i], docs[i])
    ensures exists i :: 0 <= i < |cs| && !Reads(cs[i], docs[i])
  {
    DocsForHold(cs, true);
    var n :| 0 <= n < |cs| && !NeverReads(cs[n], false);
    docs := DocsFor(cs, true)[n := ReadingDoc(cs[n], false)];
    var k := if n == 0 then 1 else 0;
    assert !Reads(cs[n], docs[n]) && Holds(cs[k], docs[k]);
  }

  // Minus clauses only, read as a complement: all of them are demanded, not one.
  lemma AllMinusDisjunctionFilterDiffers(cs: seq<Component>) returns (g: Document)
    requires Built(Disjunction(false, cs)) && Usable(cs) && |cs| > 1 && !AnyNegated(cs)
    requires forall i :: 0 <= i < |cs| ==> PrintsMinus(cs[i])
    ensures Selects(ToBooleanPhrase(Disjunction(false, cs)), g) != Holds(Disjunction(false, cs), g)
  {
    var docs: seq<Document>;
    if exists n :: 0 <= n < |cs| && !NeverReads(cs[n], false) {
      docs := OneHoldsNotAllRead(cs);
    } else {
      DocsForHold(cs, false);
      docs := DocsFor(cs, false);
    }
    GlueAgrees(cs, docs);
    g := Glue(cs, docs);
    SelectsConnective(Disjunction(false, cs), g);
  }

  lemma {:induction false} UnreadableFilterDiffers(c: Component) returns (d: Document)
    requires Built(c) && Independent(c) && Parses(ToBooleanPhrase(c)) && !ReadableFilter(c)
    ensures Selects(ToBooleanPhrase(c), d) != Holds(c, d)
  {
    var cs := c.components;
    ParsesMeansFull(c);
    if |cs| == 1 {
      SingleChildPhrase(c);
      d := UnreadableFilterDiffers(cs[0]);
    } else if c.Conjunction? {
      var i :| 0 <= i < |cs| && !Readable(cs[i]);
      d := UnreadableDiffers(cs[i]);
      d := LiftDifference(cs, true, i, d);
      SelectsConnective(c, d);
    } else if !AnyNegated(cs) && forall i :: 0 <= i < |cs| ==> PrintsMinus(cs[i]) {
      d := AllMinusDisjunctionFilterDiffers(cs);
    } else {
      d := UnreadableDiffers(c);
      SelectsConnective(c, d);
    }
  }

  lemma {:induction false} ReadableFilterMeansItself(c: Component, d: Document)
    requires Built(c) && ReadableFilter(c)
    ensures Parses(ToBooleanPhrase(c))
    ensures Selects(ToBooleanPhrase(c), d) == Holds(c, d)
  {
    if c.Restriction? {
      ReadableMeansItself(c, d);
    } else if |c.components| == 1 {
      SingleChildPhrase(c);
      ReadableFilterMeansItself(c.components[0], d);
    } else {
      var cs := c.components;
      SelectsConnective(c, d);
      if c.Conjunction? {
        forall i | 0 <= i < |cs| ensures Reads(cs[i], d) == Holds(cs[i], d) && Parses(PhraseAll(cs)[i]) {
          ReadableMeansItself(cs[i], d);
          ReadableParses(cs[i]);
        }
        assert ToBooleanPhrase(c) == Group(And, PhraseAll(cs));
      } else {
        ReadableMeansItself(c, d);
        ReadableParses(c);
        assert !cs[0].Conjunction? ==> cs[0].IsNegated() == PrintsMinus(cs[0]);
      }
    }
  }

  /** As a filter query of its own, a component's phrase parses and selects exactly
      the documents the component asks for if and only if it is a readable filter. */
  lemma ReadableFilterIsExact(c: Component)
    requires Built(c) && Independent(c)
    ensures ReadableFilter(c) <==> Parses(ToBooleanPhrase(c)) && FilterMeansItself(c)
  {
    if ReadableFilter(c) {
      ReadableFilterMeansItself(c, {});
      forall d ensures Selects(ToBooleanPhrase(c), d) == Holds(c, d) {
        ReadableFilterMeansItself(c, d);
      }
    }
    if Parses(ToBooleanPhrase(c)) && !ReadableFilter(c) {
      var d := UnreadableFilterDiffers(c);
    }
  }

  // ---------------------------------------------------------------------------
  // The scope of a query: one filter query per component, empty ones dropped

  function FilterQueries(cs: seq<Component>): (fs: seq<Phrase>) {
    if cs == [] then []
    else
      var p := ToBooleanPhrase(cs[0]);
      (if p == Nil then [] else [p]) + FilterQueries(cs[1..])
  }

  // What each component prints, if anything.
  function Printed(cs: seq<Component>): (ps: seq<Option<Phrase>>)
    ensures |ps| == |cs|
    ensures forall i :: 0 <= i < |cs| ==>
              ps[i] == if ToBooleanPhrase(cs[i]) == Nil then None else Some(ToBooleanPhrase(cs[i]))
  {
    seq(|cs|, i requires 0 <= i < |cs| =>
      if ToBooleanPhrase(cs[i]) == Nil then None else Some(ToBooleanPhrase(cs[i])))
  }

  lemma {:induction false} FilterQueriesAppend(cs: seq<Component>, c: Component)
    ensures FilterQueries(cs + [c]) ==
            FilterQueries(cs) + if ToBooleanPhrase(c) == Nil then [] else [ToBooleanPhrase(c)]
  {
    if cs != [] {
      assert (cs + [c])[1..] == cs[1..] + [c];
      FilterQueriesAppend(cs[1..], c);
    }
  }

  lemma {:induction false} FilterQueriesUpTo(cs: seq<Component>, n: nat, things: seq<Option<Phrase>>)
    requires n <= |cs| == |things|
    requires forall i :: 0 <= i < n ==>
               things[i] == if ToBooleanPhrase(cs[i]) == Nil then None else Some(ToBooleanPhrase(cs[i]))
    ensures FilterQueries(cs[..n]) == Somes(things[..n])
  {
    if n > 0 {
      FilterQueriesUpTo(cs, n - 1, things);
      assert cs[..n] == cs[..n - 1] + [cs[n - 1]];
      FilterQueriesAppend(cs[..n - 1], cs[n - 1]);
      assert things[..n][..n - 1] == things[..n - 1];
    }
  }

  /** One filter query for each component that prints something, in order. */
  lemma FilterQueriesInOrder(cs: seq<Component>) returns (at: seq<nat>)
    ensures Picked(FilterQueries(cs), Printed(cs), at)
  {
    var things := Printed(cs);
    FilterQueriesUpTo(cs, |cs|, things);
    at := SomesKeepOrder(things);
    assert cs[..|cs|] == cs && things[..|cs|] == things;
  }

  // Components that print nothing are ignored, wherever they sit in a chain of
  // single-component connectives.
  predicate Blank(c: Component) {
    !c.Restriction? && (c.components == [] || (|c.components| == 1 && Blank(c.components[0])))
  }

  lemma {:induction false} BlankPrintsNothing(c: Component)
    requires Built(c)
    ensures Blank(c) <==> ToBooleanPhrase(c) == Nil
  {
    if !c.Restriction? && |c.components| == 1 {
      SingleChildPhrase(c);
      BlankPrintsNothing(c.components[0]);
    }
  }

  /** Solr's answer to a query, the documents every filter query selects, is what
      the non-blank components of the scope ask for. */
  lemma {:induction false} ScopeSelects(cs: seq<Component>, d: Document)
    requires forall i :: 0 <= i < |cs| ==> Built(cs[i]) && (Blank(cs[i]) || ReadableFilter(cs[i]))
    ensures (forall p :: p in FilterQueries(cs) ==> Selects(p, d)) <==>
            (forall i :: 0 <= i < |cs| ==> Blank(cs[i]) || Holds(cs[i], d))
  {
    if cs != [] {
      BlankPrintsNothing(cs[0]);
      ScopeSelects(cs[1..], d);
      var p := ToBooleanPhrase(cs[0]);
      if !Blank(cs[0]) {
        ReadableFilterMeansItself(cs[0], d);
        assert p in FilterQueries(cs);
      }
      assert forall i :: 0 < i < |cs| ==> cs[i] == cs[1..][i - 1];
      assert forall q :: q in FilterQueries(cs) <==> (q in FilterQueries(cs[1..]) || (q == p && p != Nil));
      assert forall i :: 0 <= i < |cs[1..]| ==> cs[1..][i] == cs[i + 1];
    }
  }

  // ---------------------------------------------------------------------------
  // The exact condition on a whole scope

  lemma {:induction false} FilterQueriesMean(cs: seq<Component>, p: Phrase)
    ensures p in FilterQueries(cs) <==> p != Nil && exists i :: 0 <= i < |cs| && ToBooleanPhrase(cs[i]) == p
  {
    if cs != [] {
      FilterQueriesMean(cs[1..], p);
      assert forall i :: 0 < i < |cs| ==> cs[i] == cs[1..][i - 1];
      assert forall i :: 0 <= i < |cs[1..]| ==> cs[1..][i] == cs[i + 1];
    }
  }

  ghost predicate SelectedBy(c: Component, d: Document) {
    Selects(ToBooleanPhrase(c), d)
  }

  lemma FilterFrame(c: Component, d: Document, e: Document)
    requires d * Atoms(c) == e * Atoms(c)
    ensures SelectedBy(c, d) == SelectedBy(c, e)
  {
    var p := ToBooleanPhrase(c);
    PrintsOwnAtoms(c);
    assert d * PhraseAtoms(p) == (d * Atoms(c)) * PhraseAtoms(p);
    PhraseFrame(p, d, e);
    if p.Group? {
      forall i | 0 <= i < |p.clauses| ensures Clause(p.clauses[i], d) == Clause(p.clauses[i], e) {
        var s := PhraseAtoms(p.clauses[i]);
        assert s <= PhraseAtoms(p);
        assert d * s == (d * PhraseAtoms(p)) * s;
        PhraseFrame(p.clauses[i], d, e);
      }
    }
  }

  lemma GlueSelects(cs: seq<Component>, docs: seq<Document>, i: nat)
    requires IndependentAll(cs) && |docs| == |cs| && i < |cs|
    ensures SelectedBy(cs[i], Glue(cs, docs)) == SelectedBy(cs[i], docs[i])
    ensures Holds(cs[i], Glue(cs, docs)) == Holds(cs[i], docs[i])
  {
    var g := Glue(cs, docs);
    forall a | a in g * Atoms(cs[i]) ensures a in docs[i] {
      var j :| 0 <= j < |cs| && a in docs[j] * Atoms(cs[j]);
      assert j == i;
    }
    assert g * Atoms(cs[i]) == docs[i] * Atoms(cs[i]);
    FilterFrame(cs[i], g, docs[i]);
    HoldsFrame(cs[i], g, docs[i]);
  }

  // Whether every component that prints something selects, or holds for, a document.
  ghost predicate AllSelect(cs: seq<Component>, d: Document) {
    forall i :: 0 <= i < |cs| ==> Blank(cs[i]) || SelectedBy(cs[i], d)
  }

  ghost predicate AllHold(cs: seq<Component>, d: Document) {
    forall i :: 0 <= i < |cs| ==> Blank(cs[i]) || Holds(cs[i], d)
  }

  ghost predicate NeverSelects(c: Component) {
    forall d :: !SelectedBy(c, d)
  }

  ghost function SelectedDoc(c: Component): (d: Document)
    ensures !NeverSelects(c) ==> SelectedBy(c, d)
  {
    if NeverSelects(c) then {} else
    var d :| SelectedBy(c, d);
    d
  }

  // A filter query that is wrong on its own makes the whole scope wrong.
  lemma FilterDifferenceRises(cs: seq<Component>, i: nat, d: Document) returns (g: Document)
    requires IndependentAll(cs) && i < |cs| && !Blank(cs[i]) && SelectedBy(cs[i], d) != Holds(cs[i], d)
    requires forall j :: 0 <= j < |cs| && !Blank(cs[j]) ==> Built(cs[j]) && Full(cs[j])
    ensures AllSelect(cs, g) != AllHold(cs, g)
  {
    var holding := DocsFor(cs, true);
    var docs: seq<Document>;
    forall j | 0 <= j < |cs| && !Blank(cs[j]) ensures Holds(cs[j], holding[j]) {
      DocForHolds(cs[j], true);
    }
    if k :| 0 <= k < |cs| && !Blank(cs[k]) && NeverSelects(cs[k]) {
      docs := holding;
      assert !SelectedBy(cs[k], docs[k]);
    } else if Holds(cs[i], d) {
      docs := holding[i := d];
      assert !SelectedBy(cs[i], docs[i]);
    } else {
      docs := seq(|cs|, j requires 0 <= j < |cs| => SelectedDoc(cs[j]))[i := d];
      assert !Holds(cs[i], docs[i]);
    }
    g := Glue(cs, docs);
    forall j | 0 <= j < |cs|
      ensures SelectedBy(cs[j], g) == SelectedBy(cs[j], docs[j]) && Holds(cs[j], g) == Holds(cs[j], docs[j])
    {
      GlueSelects(cs, docs, j);
    }
  }

  ghost predicate ScopeMeansItself(cs: seq<Component>) {
    && (forall p :: p in FilterQueries(cs) ==> Parses(p))
    && forall d :: (forall p :: p in FilterQueries(cs) ==> Selects(p, d)) <==> AllHold(cs, d)
  }

  lemma FilterQueriesSelect(cs: seq<Component>, d: Document)
    requires forall i :: 0 <= i < |cs| ==> Built(cs[i])
    ensures (forall p :: p in FilterQueries(cs) ==> Selects(p, d)) <==> AllSelect(cs, d)
  {
    forall p ensures p in FilterQueries(cs) <==>
      p != Nil && exists i :: 0 <= i < |cs| && ToBooleanPhrase(cs[i]) == p
    {
      FilterQueriesMean(cs, p);
    }
    forall i | 0 <= i < |cs| ensures Blank(cs[i]) <==> ToBooleanPhrase(cs[i]) == Nil {
      BlankPrintsNothing(cs[i]);
    }
  }

  /** The filter queries of a scope of independent restrictions all parse and together
      select exactly what its components ask for, blank ones ignored, if and only if
      every component that is not blank is a readable filter. */
  lemma ScopeIsExact(cs: seq<Component>)
    requires IndependentAll(cs) && forall i :: 0 <= i < |cs| ==> Built(cs[i])
    ensures ScopeMeansItself(cs) <==> forall i :: 0 <= i < |cs| ==> Blank(cs[i]) || ReadableFilter(cs[i])
  {
    if forall i :: 0 <= i < |cs| ==> Blank(cs[i]) || ReadableFilter(cs[i]) {
      ReadableScope(cs);
    } else if ScopeMeansItself(cs) {
      var k :| 0 <= k < |cs| && !Blank(cs[k]) && !ReadableFilter(cs[k]);
      forall i | 0 <= i < |cs| && !Blank(cs[i]) ensures Parses(ToBooleanPhrase(cs[i])) && Full(cs[i]) {
        BlankPrintsNothing(cs[i]);
        FilterQueriesMean(cs, ToBooleanPhrase(cs[i]));
        ParsesMeansFull(cs[i]);
      }
      var d := UnreadableFilterDiffers(cs[k]);
      d := FilterDifferenceRises(cs, k, d);
      FilterQueriesSelect(cs, d);
    }
  }

  // Without independence, the condition is still enough.
  lemma ReadableScope(cs: seq<Component>)
    requires forall i :: 0 <= i < |cs| ==> Built(cs[i]) && (Blank(cs[i]) || ReadableFilter(cs[i]))
    ensures ScopeMeansItself(cs)
  {
    forall p | p in FilterQueries(cs) ensures Parses(p) {
      FilterQueriesMean(cs, p);
      var i :| 0 <= i < |cs| && ToBooleanPhrase(cs[i]) == p;
      BlankPrintsNothing(cs[i]);
      ReadableFilterMeansItself(cs[i], {});
    }
    forall d ensures (forall p :: p in FilterQueries(cs) ==> Selects(p, d)) <==> AllHold(cs, d) {
      ScopeSelects(cs, d);
    }
  }
}
