/**
  Field definitions and their inheritance. A query for a class's fields copies what
  it finds in the setups of its ancestors down into its own setup, so later queries
  read copies.
 */
module Inheritance {

  // A class with its chain of superclasses.
  datatype Class = Top | Sub(name: string, superclass: Class)

  type Signature = nat
  type Factory = nat
  type Fields = map<Signature, Factory>
  type Setups = map<Class, Fields>

  // The nearest class, from this one up, that has a setup; Top if there is none.
  function SetupFor(setups: Setups, c: Class): (owner: Class)
    ensures owner == Top || owner in setups
  {
    if c.Top? then Top else if c in setups then c else SetupFor(setups, c.superclass)
  }

  predicate AtOrBelow(a: Class, c: Class) {
    a == c || (a.Sub? && AtOrBelow(a.superclass, c))
  }

  // All fields of a class, the nearest definition of a signature winning.
  function Walk(setups: Setups, c: Class): Fields {
    if c.Top? then map[]
    else Walk(setups, c.superclass) + if c in setups then setups[c] else map[]
  }

  lemma {:induction false} WalkOfOwner(setups: Setups, c: Class)
    ensures Walk(setups, SetupFor(setups, c)) == Walk(setups, c)
  {
    if c.Sub? && c !in setups {
      WalkOfOwner(setups, c.superclass);
      assert Walk(setups, c.superclass) + map[] == Walk(setups, c.superclass);
    }
  }

  // The setups after a query for a class: its own setup and those of its ancestors
  // have become complete.
  function Copied(setups: Setups, c: Class): Setups {
    map a | a in setups :: if AtOrBelow(c, a) && a.Sub? then Walk(setups, a) else setups[a]
  }

  lemma {:induction false} SetupForIsAbove(setups: Setups, c: Class)
    ensures forall a :: a in setups && a.Sub? ==> (AtOrBelow(c, a) <==> AtOrBelow(SetupFor(setups, c), a))
  {
    if c.Sub? && c !in setups {
      SetupForIsAbove(setups, c.superclass);
    }
  }

  // A query for a class is a query for the class that has its setup.
  lemma OwnerAnswers(setups: Setups, c: Class)
    requires Top !in setups
    ensures var owner := SetupFor(setups, c);
            && Walk(setups, owner) == Walk(setups, c) && Copied(setups, owner) == Copied(setups, c)
            && (owner.Top? ==> Copied(setups, c) == setups && Walk(setups, c) == map[])
  {
    WalkOfOwner(setups, c);
    SetupForIsAbove(setups, c);
  }

  /** Copying never changes what a query finds. */
  lemma {:induction false} CopyingKeepsWalks(setups: Setups, c: Class, a: Class)
    ensures Walk(Copied(setups, c), a) == Walk(setups, a)
  {
    if a.Sub? {
      CopyingKeepsWalks(setups, c, a.superclass);
    }
  }

  // A class at or above c defines the signature, and none between them does.
  ghost predicate NearestDefinition(setups: Setups, c: Class, a: Class, s: Signature) {
    && AtOrBelow(c, a) && a.Sub? && a in setups && s in setups[a]
    && forall b :: AtOrBelow(c, b) && AtOrBelow(b, a) && b != a && b in setups ==> s !in setups[b]
  }

  /** A walk finds the nearest definition of every signature, and no other signatures. */
  lemma WalkIsNearest(setups: Setups, c: Class, s: Signature, f: Factory)
    ensures s in Walk(setups, c) && Walk(setups, c)[s] == f <==>
              exists a :: NearestDefinition(setups, c, a, s) && setups[a][s] == f
  {
    if s in Walk(setups, c) {
      var a := FoundAt(setups, c, s);
    }
    forall a | NearestDefinition(setups, c, a, s) ensures s in Walk(setups, c) && Walk(setups, c)[s] == setups[a][s] {
      NearestIsFound(setups, c, a, s);
    }
  }

  lemma {:induction false} FoundAt(setups: Setups, c: Class, s: Signature) returns (a: Class)
    requires s in Walk(setups, c)
    ensures NearestDefinition(setups, c, a, s) && Walk(setups, c)[s] == setups[a][s]
  {
    if c in setups && s in setups[c] {
      a := c;
      forall b | AtOrBelow(c, b) && AtOrBelow(b, c) ensures b == c {
        BelowIsLarger(b, c);
        BelowIsLarger(c.superclass, b);
      }
    } else {
      a := FoundAt(setups, c.superclass, s);
    }
  }

  lemma {:induction false} NearestIsFound(setups: Setups, c: Class, a: Class, s: Signature)
    requires NearestDefinition(setups, c, a, s)
    ensures s in Walk(setups, c) && Walk(setups, c)[s] == setups[a][s]
  {
    if a != c {
      assert AtOrBelow(c, c);
      NearestIsFound(setups, c.superclass, a, s);
    }
  }

  // ---------------------------------------------------------------------------
  // Definitions and queries in any order

  // `own` is what was defined on each class, `stored` what its setup holds.
  // Whatever happens, definitions stay, and copies only have ancestors' signatures.
  predicate Consistent(own: Setups, stored: Setups) {
    && own.Keys == stored.Keys && Top !in own
    && (forall a :: a in own ==> own[a].Keys <= stored[a].Keys <= Walk(own, a).Keys)
    && (forall a, s :: a in own && s in own[a] ==> stored[a][s] == own[a][s])
  }

  // Every copy is what a walk up the ancestors finds now.
  predicate Fresh(own: Setups, stored: Setups) {
    forall a, s :: a in stored && s in stored[a] ==> s in Walk(own, a) && stored[a][s] == Walk(own, a)[s]
  }

  function Defined(setups: Setups, c: Class, s: Signature, f: Factory): Setups {
    setups[c := (if c in setups then setups[c] else map[])[s := f]]
  }

  lemma {:induction false} StoredKeys(own: Setups, stored: Setups, c: Class)
    requires Consistent(own, stored)
    ensures Walk(stored, c).Keys == Walk(own, c).Keys
    ensures c in own ==> forall s :: s in own[c] ==> Walk(stored, c)[s] == own[c][s]
  {
    if c.Sub? {
      StoredKeys(own, stored, c.superclass);
    }
  }

  // Every query finds what a walk up the definitions finds.
  ghost predicate QueriesAgree(own: Setups, stored: Setups) {
    forall c :: Walk(stored, c) == Walk(own, c)
  }

  /** Queries agree with a walk up the definitions if and only if all copies are
      fresh. */
  lemma FreshIsExact(own: Setups, stored: Setups)
    requires Consistent(own, stored)
    ensures Fresh(own, stored) <==> QueriesAgree(own, stored)
  {
    if Fresh(own, stored) {
      forall c ensures Walk(stored, c) == Walk(own, c) {
        FreshWalk(own, stored, c);
      }
    }
    if QueriesAgree(own, stored) {
      forall a, s | a in stored && s in stored[a] ensures s in Walk(own, a) && stored[a][s] == Walk(own, a)[s] {
        assert s in Walk(stored, a) && Walk(stored, a)[s] == stored[a][s];
        assert Walk(stored, a) == Walk(own, a);
      }
    }
  }

  lemma {:induction false} FreshWalk(own: Setups, stored: Setups, c: Class)
    requires Consistent(own, stored) && Fresh(own, stored)
    ensures Walk(stored, c) == Walk(own, c)
  {
    if c.Sub? {
      FreshWalk(own, stored, c.superclass);
      if c in own {
        assert forall s :: s in stored[c] ==> stored[c][s] == Walk(own, c)[s];
      }
    }
  }

  // A definition of the signature on a class from a up to but not including c.
  predicate Shadowed(own: Setups, a: Class, c: Class, s: Signature) {
    a != c && a.Sub? && ((a in own && s in own[a]) || Shadowed(own, a.superclass, c, s))
  }

  // No class below c keeps a copy of the signature that the definition outdates.
  predicate Safe(own: Setups, stored: Setups, c: Class, s: Signature, f: Factory) {
    forall a :: a in stored && a != c && AtOrBelow(a, c) && s in stored[a] ==>
      Shadowed(own, a, c, s) || stored[a][s] == f
  }

  lemma UpdateUnder(under: Fields, over: Fields, s: Signature, f: Factory)
    ensures under[s := f] + over == if s in over then under + over else (under + over)[s := f]
    ensures under + over[s := f] == (under + over)[s := f]
  {
  }

  lemma {:induction false} WalkAfterDefinition(own: Setups, c: Class, s: Signature, f: Factory, a: Class)
    requires c.Sub?
    ensures Walk(Defined(own, c, s, f), a) ==
            if AtOrBelow(a, c) && !Shadowed(own, a, c, s) then Walk(own, a)[s := f] else Walk(own, a)
  {
    if a.Sub? {
      WalkAfterDefinition(own, c, s, f, a.superclass);
      UpdateUnder(Walk(own, a.superclass), if a in own then own[a] else map[], s, f);
      if a == c {
        NotBelowItself(c);
      }
    }
  }

  // A class is not at or below one that has more ancestors than it.
  lemma NotBelowItself(c: Class)
    requires c.Sub?
    ensures !AtOrBelow(c.superclass, c)
  {
    BelowIsLarger(c.superclass, c);
  }

  function Depth(c: Class): nat {
    if c.Top? then 0 else 1 + Depth(c.superclass)
  }

  lemma {:induction false} BelowIsLarger(a: Class, c: Class)
    ensures AtOrBelow(a, c) ==> Depth(c) <= Depth(a)
  {
    if a.Sub? {
      BelowIsLarger(a.superclass, c);
    }
  }

  lemma DefinitionIsConsistent(own: Setups, stored: Setups, c: Class, s: Signature, f: Factory)
    requires Consistent(own, stored) && c.Sub?
    ensures Consistent(Defined(own, c, s, f), Defined(stored, c, s, f))
  {
    var owns, stores := Defined(own, c, s, f), Defined(stored, c, s, f);
    forall a | a in owns ensures owns[a].Keys <= stores[a].Keys <= Walk(owns, a).Keys {
      WalkAfterDefinition(own, c, s, f, a);
    }
    forall a, t | a in owns && t in owns[a] ensures stores[a][t] == owns[a][t] {
    }
  }

  /** A definition keeps all copies fresh if and only if it is safe. */
  lemma SafeIsExact(own: Setups, stored: Setups, c: Class, s: Signature, f: Factory)
    requires Consistent(own, stored) && Fresh(own, stored) && c.Sub?
    ensures Fresh(Defined(own, c, s, f), Defined(stored, c, s, f)) <==> Safe(own, stored, c, s, f)
  {
    var owns, stores := Defined(own, c, s, f), Defined(stored, c, s, f);
    if Safe(own, stored, c, s, f) {
      forall a, t | a in stores && t in stores[a] ensures t in Walk(owns, a) && stores[a][t] == Walk(owns, a)[t] {
        WalkAfterDefinition(own, c, s, f, a);
      }
    }
    if Fresh(owns, stores) {
      forall a | a in stored && a != c && AtOrBelow(a, c) && s in stored[a]
        ensures Shadowed(own, a, c, s) || stored[a][s] == f
      {
        WalkAfterDefinition(own, c, s, f, a);
        assert a in stores && s in stores[a];
      }
    }
  }

  lemma QueryIsConsistent(own: Setups, stored: Setups, c: Class)
    requires Consistent(own, stored)
    ensures Consistent(own, Copied(stored, c))
    ensures Fresh(own, stored) ==> Fresh(own, Copied(stored, c))
  {
    forall a ensures Walk(stored, a).Keys == Walk(own, a).Keys
      ensures a in own ==> forall s :: s in own[a] ==> Walk(stored, a)[s] == own[a][s]
      ensures Fresh(own, stored) ==> Walk(stored, a) == Walk(own, a)
    {
      StoredKeys(own, stored, a);
      if Fresh(own, stored) {
        FreshWalk(own, stored, a);
      }
    }
  }

  lemma {:induction false} NothingAbove(setups: Setups, c: Class)
    requires forall a :: a in setups ==> !AtOrBelow(c, a)
    ensures Walk(setups, c) == map[]
  {
    if c.Sub? {
      assert AtOrBelow(c, c);
      NothingAbove(setups, c.superclass);
    }
  }

  // The smallest unsafe run: a field is defined on a class, a subclass is queried and
  // keeps a copy, and the field is defined again on the class.
  lemma RedefinitionIsNotSeen(base: Class, name: string, s: Signature, f: Factory, g: Factory)
    requires base.Sub?
    ensures var child := Sub(name, base);
            var own: Setups := map[child := map[], base := map[s := f]];
            && Walk(Defined(Copied(own, child), base, s, g), child) == map[s := f]
            && Walk(Defined(own, base, s, g), child) == map[s := g]
  {
    var child := Sub(name, base);
    var own: Setups := map[child := map[], base := map[s := f]];
    var stored := Copied(own, child);
    BelowIsLarger(base.superclass, base);
    BelowIsLarger(base.superclass, child);
    NothingAbove(own, base.superclass);
    assert AtOrBelow(child, child) && AtOrBelow(child, base);
    assert Walk(own, base) == own[base] && Walk(own, child) == own[base];
    assert stored[child] == map[s := f] && stored[base] == map[s := f];
    NothingAbove(Defined(stored, base, s, g), base.superclass);
    NothingAbove(Defined(own, base, s, g), base.superclass);
  }

  /** Whatever was defined when, a query misses no signature of the class and its
      ancestors and lets the class's own definitions win. If queries agree with a
      walk up the definitions, they still do after it. */
  lemma QueryAnswers(own: Setups, stored: Setups, c: Class)
    requires Consistent(own, stored)
    ensures Consistent(own, Copied(stored, c))
    ensures Walk(stored, c).Keys == Walk(own, c).Keys
    ensures c in own ==> forall s :: s in own[c] ==> Walk(stored, c)[s] == own[c][s]
    ensures QueriesAgree(own, stored) ==> Walk(stored, c) == Walk(own, c) && QueriesAgree(own, Copied(stored, c))
  {
    StoredKeys(own, stored, c);
    QueryIsConsistent(own, stored, c);
    FreshIsExact(own, stored);
    FreshIsExact(own, Copied(stored, c));
  }

  // ---------------------------------------------------------------------------
  // Runs

  datatype Event = Define(c: Class, s: Signature, f: Factory) | Query(c: Class)

  // The definitions and the stored fields after the first n events.
  function After(events: seq<Event>, n: nat): (Setups, Setups)
    requires n <= |events|
  {
    if n == 0 then (map[], map[])
    else
      var (own, stored) := After(events, n - 1);
      match events[n - 1]
      case Define(c, s, f) => (Defined(own, c, s, f), Defined(stored, c, s, f))
      case Query(c) => (own, Copied(stored, c))
  }

  // Every definition is on a class and safe when it is made.
  predicate AllSafe(events: seq<Event>, n: nat)
    requires n <= |events|
  {
    n == 0 ||
    (AllSafe(events, n - 1) &&
     (events[n - 1].Define? ==>
        && events[n - 1].c.Sub?
        && Safe(After(events, n - 1).0, After(events, n - 1).1, events[n - 1].c, events[n - 1].s, events[n - 1].f)))
  }

  /** In any run of safe definitions and queries, in any order, every query finds what
      a walk up the definitions made so far finds. */
  lemma {:induction false} SafeRunsAgree(events: seq<Event>, n: nat)
    requires n <= |events| && AllSafe(events, n)
    ensures var (own, stored) := After(events, n); Consistent(own, stored) && QueriesAgree(own, stored)
  {
    if n == 0 {
      FreshIsExact(map[], map[]);
    } else {
      SafeRunsAgree(events, n - 1);
      var (own, stored) := After(events, n - 1);
      match events[n - 1]
      case Define(c, s, f) =>
        FreshIsExact(own, stored);
        SafeIsExact(own, stored, c, s, f);
        DefinitionIsConsistent(own, stored, c, s, f);
        FreshIsExact(Defined(own, c, s, f), Defined(stored, c, s, f));
      case Query(c) =>
        QueryAnswers(own, stored, c);
    }
  }

  // ---------------------------------------------------------------------------
  // The registry of setups

  class Registry {
    var setups: Setups
    ghost var own: Setups  // the definitions alone

    ghost predicate Valid()
      reads this
    {
      Consistent(own, setups)
    }

    constructor ()
      ensures Valid() && setups == map[] && own == map[]
    {
      setups, own := map[], map[];
    }

    // Define a field on a class, giving the class a setup if it has none.
    method AddField(c: Class, s: Signature, f: Factory)
      requires Valid() && c.Sub?
      modifies this
      ensures Valid() && own == Defined(old(own), c, s, f) && setups == Defined(old(setups), c, s, f)
      ensures QueriesAgree(old(own), old(setups)) ==>
                (QueriesAgree(own, setups) <==> Safe(old(own), old(setups), c, s, f))
    {
      var fields := if c in setups then setups[c] else map[];
      setups := setups[c := fields[s := f]];
      own := Defined(own, c, s, f);
      DefinitionIsConsistent(old(own), old(setups), c, s, f);
      FreshIsExact(old(own), old(setups));
      FreshIsExact(own, setups);
      if Fresh(old(own), old(setups)) {
        SafeIsExact(old(own), old(setups), c, s, f);
      }
    }

    // All fields of a class that has a setup, copied into it on the way.
    method GetInheritableHash(c: Class) returns (fields: Fields)
      requires c in setups && c.Sub?
      modifies this`setups
      ensures fields == Walk(old(setups), c)
      ensures setups == Copied(old(setups), c)
      decreases c
    {
      var parent := SetupFor(setups, c.superclass);
      WalkOfOwner(setups, c.superclass);
      SetupForIsAbove(setups, c.superclass);
      fields := setups[c];
      if parent.Sub? {
        ParentIsSmaller(setups, c.superclass);
        var inherited := GetInheritableHash(parent);
        fields := inherited + setups[c];
        setups := setups[c := fields];
      }
    }

    // The fields of the nearest setup for a class; none if there is no setup.
    method FieldFactories(c: Class) returns (fields: Fields)
      requires Valid()
      modifies this`setups
      ensures Valid() && setups == Copied(old(setups), c)
      ensures fields == Walk(old(setups), c)
      ensures fields.Keys == Walk(own, c).Keys
      ensures c in own ==> forall s :: s in own[c] ==> fields[s] == own[c][s]
      ensures QueriesAgree(own, old(setups)) ==> fields == Walk(own, c) && QueriesAgree(own, setups)
    {
      var owner := SetupFor(setups, c);
      OwnerAnswers(setups, c);
      fields := map[];
      if owner.Sub? {
        fields := GetInheritableHash(owner);
      }
      QueryAnswers(own, old(setups), c);
    }
  }

  lemma {:induction false} ParentIsSmaller(setups: Setups, c: Class)
    ensures SetupFor(setups, c) == c || SetupFor(setups, c) < c || SetupFor(setups, c) == Top
  {
    if c.Sub? && c !in setups {
      ParentIsSmaller(setups, c.superclass);
    }
  }
}
