/**
  Finding the adapter of a class: the nearest registered one up its ancestors, with
  two caches that lookups fill.
 */
module Adapters {
  import opened Wrappers

  type Name = string
  type Adapter = nat
  type Registered = map<Name, Adapter>

  // An anonymous class or module has no name to be registered under.
  function RegisteredFor(registered: Registered, name: Name): Option<Adapter> {
    if name != "" && name in registered then Some(registered[name]) else None
  }

  function FirstRegistered(registered: Registered, names: seq<Name>): Option<Adapter> {
    if names == [] then None
    else
      var own := RegisteredFor(registered, names[0]);
      if own.Some? then own else FirstRegistered(registered, names[1..])
  }

  // The classes that are looked up, with their ancestors in order, modules included.
  type Ancestors = map<Name, seq<Name>>

  // What a search without caches finds.
  function Find(registered: Registered, ancestors: Ancestors, c: Name): Option<Adapter>
    requires c in ancestors
  {
    var own := RegisteredFor(registered, c);
    if own.Some? then own else FirstRegistered(registered, ancestors[c])
  }

  predicate IsRegistered(registered: Registered, name: Name) {
    name != "" && name in registered
  }

  lemma {:induction false} FirstRegisteredMeans(registered: Registered, names: seq<Name>, x: Adapter)
    ensures FirstRegistered(registered, names) == Some(x) <==>
              exists i :: 0 <= i < |names| && IsRegistered(registered, names[i]) && registered[names[i]] == x &&
                          forall j :: 0 <= j < i ==> !IsRegistered(registered, names[j])
  {
    if names != [] {
      var rest := names[1..];
      FirstRegisteredMeans(registered, rest, x);
      assert forall j :: 0 < j < |names| ==> names[j] == rest[j - 1];
      if IsRegistered(registered, names[0]) {
        assert FirstRegistered(registered, names) == Some(registered[names[0]]);
      } else {
        if i :| 0 <= i < |rest| && IsRegistered(registered, rest[i]) && registered[rest[i]] == x &&
                forall j :: 0 <= j < i ==> !IsRegistered(registered, rest[j]) {
          assert names[i + 1] == rest[i];
        }
        if i :| 0 <= i < |names| && IsRegistered(registered, names[i]) && registered[names[i]] == x &&
                forall j :: 0 <= j < i ==> !IsRegistered(registered, names[j]) {
          assert rest[i - 1] == names[i];
          assert forall j :: 0 <= j < i - 1 ==> rest[j] == names[j + 1];
        }
      }
    }
  }

  /** The adapter found for a class is its own, or else that of its first ancestor that has
      one; a class without a name has none of its own. */
  lemma FindIsNearest(registered: Registered, ancestors: Ancestors, c: Name, x: Adapter)
    requires c in ancestors
    ensures var names := ancestors[c];
            Find(registered, ancestors, c) == Some(x) <==>
              if IsRegistered(registered, c) then registered[c] == x
              else exists i :: 0 <= i < |names| && IsRegistered(registered, names[i]) && registered[names[i]] == x &&
                               forall j :: 0 <= j < i ==> !IsRegistered(registered, names[j])
  {
    FirstRegisteredMeans(registered, ancestors[c], x);
  }

  // Wherever a class stands among the ancestors of another, its own ancestors stand
  // at the end of that list; modules prepended to it come before it.
  ghost predicate SingleInheritance(ancestors: Ancestors) {
    forall d, i :: d in ancestors && 0 <= i < |ancestors[d]| && ancestors[d][i] in ancestors ==>
      EndsWithFrom(ancestors[d], ancestors[ancestors[d][i]], i)
  }

  ghost predicate EndsWithFrom(names: seq<Name>, tail: seq<Name>, i: nat) {
    exists j :: 0 <= j <= i && j <= |names| && names[j..] == tail
  }

  lemma {:induction false} SkipUnregistered(registered: Registered, names: seq<Name>, j: nat, p: nat)
    requires j <= p <= |names| && forall k :: j <= k < p ==> RegisteredFor(registered, names[k]).None?
    ensures FirstRegistered(registered, names[j..]) == FirstRegistered(registered, names[p..])
    decreases p - j
  {
    if j < p {
      assert names[j..][1..] == names[j + 1..];
      SkipUnregistered(registered, names, j + 1, p);
    }
  }

  // Registering for a class what was found among its ancestors changes no search
  // through a list of names that ends with them. The search has come to position p.
  lemma {:induction false} MemoKeepsFirst(registered: Registered, c: Name, tail: seq<Name>, found: Adapter,
                                          names: seq<Name>, p: nat)
    requires c != "" && c !in registered && FirstRegistered(registered, tail) == Some(found)
    requires forall i :: 0 <= i < |names| && names[i] == c ==> EndsWithFrom(names, tail, i)
    requires p <= |names| && forall k :: 0 <= k < p ==> RegisteredFor(registered, names[k]).None?
    ensures FirstRegistered(registered[c := found], names[p..]) == FirstRegistered(registered, names[p..])
    decreases |names| - p
  {
    if p < |names| && RegisteredFor(registered, names[p]).None? {
      assert names[p..][1..] == names[p + 1..];
      if names[p] == c {
        var j :| 0 <= j <= p && names[j..] == tail;
        SkipUnregistered(registered, names, j, p);
        assert names[p..][0] == c;
      } else {
        MemoKeepsFirst(registered, c, tail, found, names, p + 1);
      }
    }
  }

  /** Filling the cache with the result of a search changes no later search. */
  lemma MemoKeepsFind(registered: Registered, ancestors: Ancestors, c: Name, d: Name)
    requires SingleInheritance(ancestors) && c in ancestors && d in ancestors
    requires RegisteredFor(registered, c).None? && Find(registered, ancestors, c).Some?
    ensures Find(registered[c := Find(registered, ancestors, c).value], ancestors, d) == Find(registered, ancestors, d)
  {
    var found := Find(registered, ancestors, c).value;
    if c == "" {
      AnonymousIsIgnored(registered, found, ancestors[d]);
    } else {
      forall i | 0 <= i < |ancestors[d]| && ancestors[d][i] == c ensures EndsWithFrom(ancestors[d], ancestors[c], i) {
      }
      MemoKeepsFirst(registered, c, ancestors[c], found, ancestors[d], 0);
    }
  }

  lemma {:induction false} AnonymousIsIgnored(registered: Registered, found: Adapter, names: seq<Name>)
    ensures FirstRegistered(registered["" := found], names) == FirstRegistered(registered, names)
  {
    if names != [] {
      AnonymousIsIgnored(registered, found, names[1..]);
    }
  }

  class AdapterRegistry {
    const ancestors: Ancestors
    ghost const base: Registered  // what was registered to begin with
    var adapters: Registered
    var known: Registered

    ghost predicate Valid()
      reads this
    {
      && SingleInheritance(ancestors)
      && (forall c :: c in ancestors ==> Find(adapters, ancestors, c) == Find(base, ancestors, c))
      && (forall c :: c in known && c in ancestors ==> Find(base, ancestors, c) == Some(known[c]))
    }

    constructor (ancestors: Ancestors, registered: Registered)
      requires SingleInheritance(ancestors)
      ensures Valid() && base == registered && this.ancestors == ancestors
    {
      this.ancestors, base, adapters, known := ancestors, registered, registered, map[];
    }

    // The adapter of a class; none means the source raises an error. An adapter
    // found among the ancestors is registered for the class itself.
    method For(c: Name) returns (adapter: Option<Adapter>)
      requires Valid() && c in ancestors
      modifies this`adapters
      ensures Valid() && adapter == Find(base, ancestors, c)
    {
      adapter := RegisteredFor(adapters, c);
      if adapter.Some? {
        return;
      }
      var names := ancestors[c];
      for i := 0 to |names|
        invariant adapter.None? && FirstRegistered(adapters, names) == FirstRegistered(adapters, names[i..])
      {
        adapter := RegisteredFor(adapters, names[i]);
        if adapter.Some? {
          forall d | d in ancestors
            ensures Find(adapters[c := adapter.value], ancestors, d) == Find(adapters, ancestors, d)
          {
            MemoKeepsFind(adapters, ancestors, c, d);
          }
          adapters := adapters[c := adapter.value];
          return;
        }
        assert names[i..][1..] == names[i + 1..];
      }
    }

    // The adapter of an instance's class, remembered by class.
    method Adapt(c: Name) returns (adapter: Option<Adapter>)
      requires Valid() && c in ancestors
      modifies this`adapters, this`known
      ensures Valid() && adapter == Find(base, ancestors, c)
    {
      if c in known {
        return Some(known[c]);
      }
      adapter := For(c);
      if adapter.Some? {
        known := known[c := adapter.value];
      }
    }
  }
}
