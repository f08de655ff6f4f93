/**
  Whole searches, from the block to the documents Solr returns, and blocks that
  come out wrong.
 */
module ScopeExamples {
  import opened Connective
  import opened ScopeMeaning
  import opened ScopeDsl

  // The documents a search with this block returns, if Solr can parse its filter queries.
  ghost predicate Returns(body: seq<Statement>, d: Document) {
    forall p :: p in FilterQueries(Components(false, body)) ==> Selects(p, d)
  }

  ghost predicate QueriesParse(body: seq<Statement>) {
    forall p :: p in FilterQueries(Components(false, body)) ==> Parses(p)
  }

  // An `any_of` block whose component prints nothing.
  predicate PrintsNothing(s: Statement) {
    s.AnyOf? && Blank(Disjunction(false, Components(true, s.body)))
  }

  // What a search block asks for, `any_of` blocks that print nothing ignored.
  ghost predicate AsksFor(body: seq<Statement>, d: Document)
    decreases body
  {
    forall i :: 0 <= i < |body| ==>
      match body[i]
      case AllOf(inner) => AsksFor(inner, d)
      case _ => PrintsNothing(body[i]) || Asks(body[i], d)
  }

  lemma AllHoldAppend(xs: seq<Component>, ys: seq<Component>, d: Document)
    ensures AllHold(xs + ys, d) <==> AllHold(xs, d) && AllHold(ys, d)
  {
    var all := xs + ys;
    assert forall i :: 0 <= i < |xs| ==> all[i] == xs[i];
    assert forall i :: 0 <= i < |ys| ==> all[|xs| + i] == ys[i];
  }

  lemma {:induction false} ComponentsAskFor(body: seq<Statement>, d: Document)
    ensures AllHold(Components(false, body), d) <==> AsksFor(body, d)
    decreases body
  {
    if body != [] {
      var s, added := body[0], Added(false, body[0]);
      match s {
        case Restrict(_, _, _) =>
          assert AllHold(added, d) <==> Holds(added[0], d);
        case AnyOf(inner) =>
          FlatteningKeepsMeaning(inner, d);
          assert AllHold(added, d) <==> Blank(added[0]) || Holds(added[0], d);
        case AllOf(inner) =>
          ComponentsAskFor(inner, d);
      }
      AllHoldAppend(added, Components(false, body[1..]), d);
      ComponentsAskFor(body[1..], d);
      assert forall i :: 0 < i < |body| ==> body[i] == body[1..][i - 1];
      assert forall i :: 0 <= i < |body[1..]| ==> body[1..][i] == body[i + 1];
    }
  }

  /** A search block of independent restrictions has filter queries that parse and
      returns exactly the documents the block asks for, if and only if each of its
      components prints nothing or is a readable filter. */
  lemma SearchReturnsWhatIsAsked(body: seq<Statement>)
    requires IndependentAll(Components(false, body))
    ensures (forall c :: c in Components(false, body) ==> Blank(c) || ReadableFilter(c)) <==>
            QueriesParse(body) && forall d :: Returns(body, d) <==> AsksFor(body, d)
  {
    var cs := Components(false, body);
    ComponentsFit(false, body);
    ScopeIsExact(cs);
    forall d
      ensures AllHold(cs, d) <==> AsksFor(body, d)
      ensures Returns(body, d) <==> forall p :: p in FilterQueries(cs) ==> Selects(p, d)
    {
      ComponentsAskFor(body, d);
    }
    assert ScopeMeansItself(cs) <==> QueriesParse(body) && forall d :: Returns(body, d) <==> AsksFor(body, d);
    assert forall i :: 0 <= i < |cs| ==> cs[i] in cs;
  }

  /** The *if* holds for all blocks. */
  lemma ReadableSearchReturns(body: seq<Statement>, d: Document)
    requires forall c :: c in Components(false, body) ==> Blank(c) || ReadableFilter(c)
    ensures QueriesParse(body) && (Returns(body, d) <==> AsksFor(body, d))
  {
    var cs := Components(false, body);
    ComponentsFit(false, body);
    assert forall i :: 0 <= i < |cs| ==> cs[i] in cs;
    ReadableScope(cs);
    ComponentsAskFor(body, d);
  }

  /** If no `any_of` block prints nothing, this is the meaning of the nested blocks. */
  lemma {:induction false} NothingIgnored(body: seq<Statement>, d: Document)
    requires forall c :: c in Components(false, body) ==> !Blank(c)
    ensures AsksFor(body, d) <==> Asks(AllOf(body), d)
  {
    var cs := Components(false, body);
    ComponentsAskFor(body, d);
    FlatteningKeepsMeaning(body, d);
    assert forall i :: 0 <= i < |cs| ==> cs[i] in cs;
  }

  // An empty `any_of` beside a restriction is left out of the search, although read
  // strictly it would ask for no document at all.
  lemma EmptyAnyOfIsIgnored(a: Atom, d: Document)
    ensures var body := [Restrict(false, Plain, a), AnyOf([])];
            && FilterQueries(Components(false, body)) == [Term(a)]
            && (AsksFor(body, d) <==> a in d) && !Asks(AllOf(body), d)
  {
    var body := [Restrict(false, Plain, a), AnyOf([])];
    var (c, blank) := (Restriction(Plain, false, a), Disjunction(false, []));
    assert body[1..] == [AnyOf([])] && body[1..][1..] == [];
    assert Added(false, body[1]) == [blank];
    assert Components(false, body[1..]) == [blank];
    assert Components(false, body) == [c, blank];
    assert [c, blank][1..] == [blank];
    assert FilterQueries([blank]) == [];
    assert AsksFor(body, d) <==> Asks(body[0], d);
    assert !Asks(body[1], d);
  }

  /** Sunspot's README calls a restriction on an empty array a no-op. Added to a search
      block it makes no difference for a document exactly if the document has a value in
      the field or is not asked for anyway; `without` is the same as `with`. */
  lemma EmptyArrayIsNoOp(body: seq<Statement>, negated: bool, a: Atom, d: Document)
    ensures var more := body + [Restrict(negated, EmptyList, a)];
            && (Asks(AllOf(more), d) <==> Asks(AllOf(body), d) && a in d)
            && ((Asks(AllOf(more), d) <==> Asks(AllOf(body), d)) <==> a in d || !Asks(AllOf(body), d))
  {
    var more := body + [Restrict(negated, EmptyList, a)];
    assert forall i :: 0 <= i < |body| ==> more[i] == body[i];
    assert Asks(more[|body|], d) <==> a in d;
  }

  /** In an `any_of` block it adds every document that has a value in the field. So it
      makes no difference exactly if the document has none or is asked for anyway. */
  lemma EmptyArrayInAnyOf(body: seq<Statement>, negated: bool, a: Atom, d: Document)
    ensures var more := body + [Restrict(negated, EmptyList, a)];
            && (Asks(AnyOf(more), d) <==> Asks(AnyOf(body), d) || a in d)
            && ((Asks(AnyOf(more), d) <==> Asks(AnyOf(body), d)) <==> a !in d || Asks(AnyOf(body), d))
  {
    var more := body + [Restrict(negated, EmptyList, a)];
    assert forall i :: 0 <= i < |body| ==> more[i] == body[i];
    assert Asks(more[|body|], d) <==> a in d;
  }

  function TypedScope(documentType: Atom, cs: seq<Component>): Component {
    Conjunction(false, [Restriction(Plain, false, documentType)] + cs)
  }

  lemma TypedScopeHolds(documentType: Atom, cs: seq<Component>, d: Document)
    ensures Holds(TypedScope(documentType, cs), d) <==> documentType in d && Holds(Conjunction(false, cs), d)
  {
    var all := TypedScope(documentType, cs).components;
    assert Holds(all[0], d) <==> documentType in d;
    assert forall i :: 0 <= i < |cs| ==> cs[i] == all[i + 1];
    assert forall i :: 0 < i < |all| ==> all[i] == cs[i - 1];
  }

  ghost predicate Deletes(scope: Component, d: Document) {
    Selects(ToBooleanPhrase(scope), d)
  }

  /** `remove` with a block prints the type restriction and the block as one phrase.
      If the block's components are readable, it deletes the documents of that type
      the block asks for, and no others. */
  lemma ReadableRemovalDeletes(documentType: Atom, body: seq<Statement>, d: Document)
    requires forall c :: c in Components(false, body) ==> Readable(c)
    ensures var scope := TypedScope(documentType, Components(false, body));
            Parses(ToBooleanPhrase(scope)) && (Deletes(scope, d) <==> documentType in d && Asks(AllOf(body), d))
  {
    var cs := Components(false, body);
    var scope := TypedScope(documentType, cs);
    ComponentsFit(false, body);
    forall i | 0 <= i < |scope.components|
      ensures Fits(false, scope.components[i]) && Readable(scope.components[i])
    {
      assert i > 0 ==> scope.components[i] == cs[i - 1] && cs[i - 1] in cs;
    }
    ReadableFilterMeansItself(scope, d);
    TypedScopeHolds(documentType, cs, d);
    FlatteningKeepsMeaning(body, d);
  }

  lemma TypedScopeIsBuilt(documentType: Atom, body: seq<Statement>)
    ensures Built(TypedScope(documentType, Components(false, body)))
  {
    var cs := Components(false, body);
    var all := TypedScope(documentType, cs).components;
    ComponentsFit(false, body);
    assert forall i :: 0 < i < |all| ==> all[i] == cs[i - 1];
  }

  lemma TypedScopeIsReadable(documentType: Atom, cs: seq<Component>)
    ensures ReadableFilter(TypedScope(documentType, cs)) <==> forall c :: c in cs ==> Readable(c)
  {
    var all := TypedScope(documentType, cs).components;
    assert forall i :: 0 < i < |all| ==> all[i] == cs[i - 1] && all[i] in cs;
    assert forall i :: 0 <= i < |cs| ==> cs[i] == all[i + 1];
    assert Readable(all[0]);
  }

  /** For independent restrictions that is the only way: the phrase parses and deletes
      exactly what is asked for if and only if every component of the block is readable. */
  lemma RemovalDeletesWhatIsAsked(documentType: Atom, body: seq<Statement>)
    requires Independent(TypedScope(documentType, Components(false, body)))
    ensures var scope := TypedScope(documentType, Components(false, body));
            (forall c :: c in Components(false, body) ==> Readable(c)) <==>
            && Parses(ToBooleanPhrase(scope))
            && forall d :: Deletes(scope, d) <==> documentType in d && Asks(AllOf(body), d)
  {
    var scope := TypedScope(documentType, Components(false, body));
    TypedScopeIsBuilt(documentType, body);
    TypedScopeIsReadable(documentType, Components(false, body));
    ReadableFilterIsExact(scope);
    forall d
      ensures Holds(scope, d) <==> documentType in d && Asks(AllOf(body), d)
      ensures Deletes(scope, d) == Selects(ToBooleanPhrase(scope), d)
    {
      TypedScopeHolds(documentType, Components(false, body), d);
      FlatteningKeepsMeaning(body, d);
    }
  }

  // ---------------------------------------------------------------------------
  // One disjunction for each way to break the condition

  function With(a: Atom): Component { Restriction(Plain, false, a) }
  function Without(a: Atom): Component { Restriction(Plain, true, a) }
  function AnyOfThese(cs: seq<Component>): Component { Disjunction(false, cs) }
  function AllOfThese(cs: seq<Component>): Component { Conjunction(false, cs) }

  lemma DenormalizedPair(c: Component, d: Component)
    requires AnyNegated([c, d])
    ensures ToBooleanPhrase(AnyOfThese([c, d])) ==
            Minus(Group(And, [ToBooleanPhrase(c.Negate()), ToBooleanPhrase(d.Negate())]))
  {
    var ns := NegateAll([c, d]);
    assert PhraseAll(ns) == [ToBooleanPhrase(c.Negate()), ToBooleanPhrase(d.Negate())];
  }

  // `inner` is any disjunction that can stand beside `b`.
  lemma DenormalizedAroundConjunction(t: Atom, b: Atom, inner: Component)
    requires Readable(inner)
    ensures var c := AnyOfThese([Without(t), AllOfThese([With(b), inner])]);
            && ToBooleanPhrase(c) == Minus(Group(And, [Term(t), Minus(Group(And, [Term(b), ToBooleanPhrase(inner)]))]))
            && Readable(c)
  {
    var pair := [With(b), inner];
    var middle := AllOfThese(pair);
    assert PhraseAll(pair) == [Term(b), ToBooleanPhrase(inner)];
    assert !PrintsMinus(pair[0]);
    assert Readable(middle);
    var cs := [Without(t), middle];
    assert cs[0].IsNegated() && !PrintsMinus(middle) && cs[1] == middle;
    DenormalizedPair(Without(t), middle);
  }

  // The specs' deepest example: -(t AND -(b AND -(-c AND r))).
  lemma NestedDenormalization(t: Atom, b: Atom, c: Atom, r: Atom)
    ensures var outer := AnyOfThese([Without(t), AllOfThese([With(b), AnyOfThese([With(c), Without(r)])])]);
            && ToBooleanPhrase(outer) ==
               Minus(Group(And, [Term(t), Minus(Group(And, [Term(b), Minus(Group(And, [Minus(Term(c)), Term(r)]))]))]))
            && Readable(outer)
  {
    var cs := [With(c), Without(r)];
    assert cs[1].IsNegated();
    DenormalizedPair(With(c), Without(r));
    DenormalizedAroundConjunction(t, b, AnyOfThese(cs));
  }

  /** `with` and `without` on a nil value print the restriction that some value is there, the
      other way round; in a disjunction both are denormalized as other restrictions are. */
  lemma NilValues(a: Atom, b: Atom)
    ensures ToBooleanPhrase(Restriction(NilValue, false, a)) == Minus(Term(a))
    ensures ToBooleanPhrase(Restriction(NilValue, true, a)) == Term(a)
    ensures ToBooleanPhrase(AnyOfThese([Restriction(NilValue, false, a), With(b)])) ==
            Minus(Group(And, [Term(a), Minus(Term(b))]))
    ensures ToBooleanPhrase(AnyOfThese([Restriction(NilValue, true, a), With(b)])) == Group(Or, [Term(a), Term(b)])
  {
    var (none, some) := (Restriction(NilValue, false, a), Restriction(NilValue, true, a));
    assert [none, With(b)][0].IsNegated();
    DenormalizedPair(none, With(b));
    var cs := [some, With(b)];
    assert !AnyNegated(cs);
    assert PhraseAll(cs) == [Term(a), Term(b)];
  }

  // (a OR -b): a minus inside a disjunction misses documents with neither phrase.
  lemma SingleNegatedChild(a: Atom, b: Atom)
    ensures var c := AnyOfThese([With(a), AllOfThese([Without(b)])]);
            && ToBooleanPhrase(c) == Group(Or, [Term(a), Minus(Term(b))])
            && Holds(c, {}) && !Selects(ToBooleanPhrase(c), {})
  {
    var inner := AllOfThese([Without(b)]);
    var cs := [With(a), inner];
    var ps := PhraseAll(cs);
    assert ps == [Term(a), Minus(Term(b))];
    assert !ps[0].Minus? && !Matches(ps[0], {});
    assert !Matches(Group(Or, ps), {});
    assert Holds(cs[1], {}) by { assert Holds([Without(b)][0], {}); }
  }

  // (a OR (-b AND -c)): a group of minus clauses alone selects nothing.
  lemma OnlyNegatedChildren(a: Atom, b: Atom, c: Atom)
    ensures var t := AnyOfThese([With(a), AllOfThese([Without(b), Without(c)])]);
            && ToBooleanPhrase(t) == Group(Or, [Term(a), Group(And, [Minus(Term(b)), Minus(Term(c))])])
            && Holds(t, {}) && !Selects(ToBooleanPhrase(t), {})
  {
    var inner := [Without(b), Without(c)];
    assert PhraseAll(inner) == [Minus(Term(b)), Minus(Term(c))];
    var cs := [With(a), AllOfThese(inner)];
    assert PhraseAll(cs) == [Term(a), Group(And, PhraseAll(inner))];
    assert Holds(cs[1], {});
    assert !Matches(Term(a), {});
    assert !Matches(Group(Or, PhraseAll(cs)), {});
  }

  // -(a AND b): `b` is an empty `AnyOf`, which negation leaves as it is.
  lemma EmptyListNextToNegated(a: Atom, b: Atom)
    requires a != b
    ensures var c := AnyOfThese([Without(a), Restriction(EmptyList, false, b)]);
            && ToBooleanPhrase(c) == Minus(Group(And, [Term(a), Term(b)]))
            && !Holds(c, {a}) && Selects(ToBooleanPhrase(c), {a})
  {
    var cs := [Without(a), Restriction(EmptyList, false, b)];
    assert cs[0].IsNegated();
    var ns := NegateAll(cs);
    assert PhraseAll(ns) == [Term(a), Term(b)];
    assert ToBooleanPhrase(AnyOfThese(cs)) == Minus(Group(And, PhraseAll(ns)));
    assert Clause(PhraseAll(ns)[1], {a}) == (b in {a});
  }

  // -(a AND --b) and (a OR ): neither parses.
  lemma DoubleMinusAndEmptyBlock(a: Atom, b: Atom)
    ensures var c := AnyOfThese([Without(a), AllOfThese([Without(b)])]);
            && ToBooleanPhrase(c) == Minus(Group(And, [Term(a), Minus(Minus(Term(b)))]))
            && !Parses(ToBooleanPhrase(c))
    ensures var c := AnyOfThese([With(a), AllOfThese([])]);
            ToBooleanPhrase(c) == Group(Or, [Term(a), Nil]) && !Parses(ToBooleanPhrase(c))
  {
    var cs := [Without(a), AllOfThese([Without(b)])];
    assert cs[0].IsNegated();
    var ns := NegateAll(cs);
    var ps := PhraseAll(ns);
    assert ps == [Term(a), Minus(Minus(Term(b)))];
    assert ToBooleanPhrase(AnyOfThese(cs)) == Minus(Group(And, ps));
    assert !Parses(ps[1]);
    var es := PhraseAll([With(a), AllOfThese([])]);
    assert es == [Term(a), Nil];
    assert !Parses(es[1]);
  }
}
