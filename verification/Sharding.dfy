/**
  Sharding: which shard a document id goes to, and how a list of objects is split
  among the shards.
 */
module Sharding {
  import opened Order
  import opened Wrappers

  type Byte = b: int | 0 <= b < 256

  // The hash of an id as a polynomial in 31.
  function Polynomial(bytes: seq<Byte>): nat {
    if bytes == [] then 0 else Polynomial(bytes[..|bytes| - 1]) * 31 + bytes[|bytes| - 1]
  }

  function Power31(n: nat): nat {
    if n == 0 then 1 else 31 * Power31(n - 1)
  }

  // `inject` over the bytes: it starts from the first one and is nil for no bytes.
  function InjectHash(bytes: seq<Byte>): Option<nat> {
    if bytes == [] then None else Some(Inject(bytes[0], bytes[1..]))
  }

  function Inject(hash: nat, bytes: seq<Byte>): nat
    decreases bytes
  {
    if bytes == [] then hash else Inject(hash * 31 + bytes[0], bytes[1..])
  }

  // The form for old Ruby versions: a loop that starts from zero.
  method LoopHash(bytes: seq<Byte>) returns (hash: nat)
    ensures hash == Polynomial(bytes)
  {
    hash := 0;
    var i := 0;
    while i < |bytes|
      invariant 0 <= i <= |bytes| && hash == Polynomial(bytes[..i])
    {
      hash := hash * 31 + bytes[i];
      i := i + 1;
      assert bytes[..i][..i - 1] == bytes[..i - 1];
    }
    assert bytes[..|bytes|] == bytes;
  }

  lemma {:induction false} InjectIsPolynomial(done: seq<Byte>, bytes: seq<Byte>)
    ensures Inject(Polynomial(done), bytes) == Polynomial(done + bytes)
    decreases bytes
  {
    if bytes == [] {
      assert done + bytes == done;
    } else {
      assert (done + [bytes[0]])[..|done|] == done;
      assert done + [bytes[0]] + bytes[1..] == done + bytes;
      InjectIsPolynomial(done + [bytes[0]], bytes[1..]);
    }
  }

  /** The two forms of the hash agree on an id if and only if it is not empty. */
  lemma HashesAgree(bytes: seq<Byte>)
    ensures InjectHash(bytes) == Some(Polynomial(bytes)) <==> bytes != []
  {
    if bytes != [] {
      assert [bytes[0]][..0] == [];
      assert [bytes[0]] + bytes[1..] == bytes;
      InjectIsPolynomial([bytes[0]], bytes[1..]);
    }
  }

  lemma {:induction false} PolynomialAppend(xs: seq<Byte>, ys: seq<Byte>)
    ensures Polynomial(xs + ys) == Polynomial(xs) * Power31(|ys|) + Polynomial(ys)
  {
    if ys == [] {
      assert xs + ys == xs;
    } else {
      var n := |ys| - 1;
      assert (xs + ys)[..|xs| + n] == xs + ys[..n];
      assert Polynomial(xs + ys) == Polynomial(xs + ys[..n]) * 31 + ys[n];
      PolynomialAppend(xs, ys[..n]);
      OneMoreByte(Polynomial(xs), Power31(n), Polynomial(ys[..n]), ys[n]);
    }
  }

  lemma OneMoreByte(p: nat, w: nat, rest: nat, byte: nat)
    ensures (p * w + rest) * 31 + byte == p * (31 * w) + (rest * 31 + byte)
  {
  }

  // The shard an id goes to.
  function ShardOf(id: seq<Byte>, shards: nat): Option<nat>
    requires shards > 0
  {
    var hash := InjectHash(id);
    if hash.None? then None else Some(hash.value % shards)
  }

  // An object is indexed under its prefix, its class name and its key; `remove_by_id`
  // knows the class name and the key only.
  function NamedKey(className: seq<Byte>, key: seq<Byte>): seq<Byte> {
    className + [32] + key
  }

  /** The name of the class comes first, then a space, then the key; a class name has no
      space, so both can be told from the id. */
  lemma NamedKeyParts(className: seq<Byte>, key: seq<Byte>, className': seq<Byte>, key': seq<Byte>)
    requires 32 !in className && 32 !in className'
    ensures var id := NamedKey(className, key);
            && |id| == |className| + 1 + |key|
            && id[..|className|] == className && id[|className|] == 32 && id[|className| + 1..] == key
    ensures NamedKey(className, key) == NamedKey(className', key') <==> className == className' && key == key'
  {
    var (id, id') := (NamedKey(className, key), NamedKey(className', key'));
    if id == id' {
      assert id[|className|] == 32 && id'[|className'|] == 32;
      assert forall i :: 0 <= i < |className| ==> id[i] == className[i];
      assert forall i :: 0 <= i < |className'| ==> id'[i] == className'[i];
      assert className == id[..|className|] && className' == id'[..|className'|];
      assert key == id[|className| + 1..] && key' == id'[|className'| + 1..];
    }
  }

  // What a prefix adds to the hash of an id.
  function PrefixWeight(prefix: seq<Byte>, id: seq<Byte>): nat {
    Polynomial(prefix) * Power31(|id|)
  }

  /** Removal by id goes to the shard an object was indexed on if and only if the
      prefix adds a multiple of the number of shards to the hash. Unless 31 divides that
      number, this depends on the prefix alone: its own hash has to be a multiple. An
      object without a prefix is always found. */
  lemma RemovalReachesShard(prefix: seq<Byte>, className: seq<Byte>, key: seq<Byte>, shards: nat)
    requires shards > 0
    ensures var id := NamedKey(className, key);
            ShardOf(prefix + id, shards) == ShardOf(id, shards) <==> PrefixWeight(prefix, id) % shards == 0
    ensures var id := NamedKey(className, key);
            shards % 31 != 0 ==>
              (ShardOf(prefix + id, shards) == ShardOf(id, shards) <==> Polynomial(prefix) % shards == 0)
    ensures var id := NamedKey(className, key);
            prefix == [] ==> ShardOf(prefix + id, shards) == ShardOf(id, shards)
  {
    var id := NamedKey(className, key);
    assert [] + id == id;
    ShardIsRemainder(prefix + id, shards);
    ShardIsRemainder(id, shards);
    HashWithPrefix(prefix, id);
    SameRemainder(PrefixWeight(prefix, id), Polynomial(id), shards);
    if shards % 31 != 0 {
      PowerCancels(Polynomial(prefix), |id|, shards);
    }
  }

  // With three shards an object whose prefix is `a!` is looked for on another one than
  // its own; with 31 shards no prefix does any harm.
  lemma PrefixMissesShard(className: seq<Byte>, key: seq<Byte>)
    ensures Polynomial([97, 33]) == 97 * 31 + 33
    ensures var (id, prefix) := (NamedKey(className, key), [97, 33]);
            && ShardOf(prefix + id, 3) != ShardOf(id, 3)
            && ShardOf(prefix + id, 31) == ShardOf(id, 31)
  {
    var (id, prefix) := (NamedKey(className, key), [97, 33]);
    assert prefix[..1] == [97] && [97][..0] == [];
    assert Polynomial(prefix) == 97 * 31 + 33;
    RemovalReachesShard(prefix, className, key, 3);
    RemovalReachesShard(prefix, className, key, 31);
    assert |id| > 0;
    MultipleOf31(Polynomial(prefix), Power31(|id| - 1));
  }

  lemma MultipleOf31(p: nat, w: nat)
    ensures (p * (31 * w)) % 31 == 0
  {
    assert p * (31 * w) == 31 * (p * w);
    TimesIsMultiple(31, p * w);
  }

  lemma HashWithPrefix(prefix: seq<Byte>, id: seq<Byte>)
    ensures Polynomial(prefix + id) == PrefixWeight(prefix, id) + Polynomial(id)
  {
    PolynomialAppend(prefix, id);
  }

  lemma ShardIsRemainder(id: seq<Byte>, shards: nat)
    requires shards > 0 && id != []
    ensures ShardOf(id, shards) == Some(Polynomial(id) % shards)
  {
    HashesAgree(id);
  }

  lemma SameRemainder(a: nat, b: nat, n: nat)
    requires n > 0
    ensures (a + b) % n == b % n <==> a % n == 0
  {
    var q, r := (a + b) / n - b / n, (a + b) % n - b % n;
    assert a == n * q + r;
    assert a == n * (a / n) + a % n;
    if r == 0 {
      Distribute(n, q, a / n);
      SmallMultiple(n, q - a / n, a % n);
    }
    if a % n == 0 {
      Distribute(n, a / n, q);
      SmallMultiple(n, a / n - q, r);
    }
  }

  lemma Distribute(n: int, x: int, y: int)
    ensures n * x - n * y == n * (x - y)
  {
  }

  // The only multiple of n closer to zero than n is zero.
  lemma SmallMultiple(n: int, k: int, r: int)
    requires n > 0 && n * k == r && -n < r < n
    ensures r == 0
  {
    if k > 0 {
      AtLeast(n, k);
    } else if k < 0 {
      AtLeast(n, -k);
    }
  }

  lemma {:induction false} AtLeast(n: int, k: int)
    requires n > 0 && k > 0
    ensures n * k >= n && n * (-k) <= -n
    decreases k
  {
    if k > 1 {
      AtLeast(n, k - 1);
    }
  }

  // ---------------------------------------------------------------------------
  // Cancelling 31

  ghost predicate Divides(n: int, x: int)
    requires n > 0
  {
    exists k: int :: x == n * k
  }

  lemma TimesIsMultiple(n: int, k: int)
    requires n > 0
    ensures (n * k) % n == 0
  {
    var r := (n * k) % n;
    Distribute(n, k, (n * k) / n);
    SmallMultiple(n, k - (n * k) / n, r);
  }

  // 31 is a prime: if it divides a product and not the first factor, it divides the
  // second. The first factor goes down as in Euclid's algorithm.
  lemma {:induction false} PrimeDividesFactor(r: nat, q: int)
    requires 0 < r < 31 && Divides(31, r * q)
    ensures Divides(31, q)
    decreases r
  {
    if r > 1 {
      var s := 31 % r;
      NoDivisorOf31(r);
      var k :| r * q == 31 * k;
      RemainderOf31(r, q, k);
      PrimeDividesFactor(s, q);
    } else {
      assert r * q == q;
    }
  }

  lemma NoDivisorOf31(r: nat)
    requires 1 < r < 31
    ensures 31 % r != 0
  {
    assert 31 % 2 == 1 && 31 % 3 == 1 && 31 % 4 == 3 && 31 % 5 == 1 && 31 % 6 == 1 && 31 % 7 == 3;
    assert 31 % 8 == 7 && 31 % 9 == 4 && 31 % 10 == 1 && 31 % 11 == 9 && 31 % 12 == 7 && 31 % 13 == 5;
    assert 31 % 14 == 3 && 31 % 15 == 1;
  }

  lemma RemainderOf31(r: nat, q: int, k: int)
    requires 0 < r && r * q == 31 * k
    ensures Divides(31, (31 % r) * q)
  {
    var m := 31 / r;
    assert 31 == r * m + 31 % r;
    assert (31 % r) * q == 31 * q - (r * m) * q;
    assert (r * m) * q == m * (r * q);
    assert m * (31 * k) == 31 * (m * k);
    assert (31 % r) * q == 31 * (q - m * k);
  }

  lemma Cancel31(x: nat, n: nat)
    requires n > 0 && n % 31 != 0 && (31 * x) % n == 0
    ensures x % n == 0
  {
    var q := (31 * x) / n;
    assert 31 * x == n * q;
    assert n == 31 * (n / 31) + n % 31;
    assert n * q == 31 * ((n / 31) * q) + (n % 31) * q;
    assert (n % 31) * q == 31 * (x - (n / 31) * q);
    PrimeDividesFactor(n % 31, q);
    var k :| q == 31 * k;
    assert 31 * x == 31 * (n * k);
    TimesIsMultiple(n, k);
  }

  lemma {:induction false} PowerCancels(p: nat, m: nat, n: nat)
    requires n > 0 && n % 31 != 0
    ensures (p * Power31(m)) % n == 0 <==> p % n == 0
  {
    if m == 0 {
      assert p * Power31(0) == p;
    } else {
      PowerCancels(p, m - 1, n);
      var x := p * Power31(m - 1);
      assert p * Power31(m) == 31 * x;
      if x % n == 0 {
        assert 31 * x == n * (31 * (x / n));
        TimesIsMultiple(n, 31 * (x / n));
      } else if (31 * x) % n == 0 {
        Cancel31(x, n);
      }
    }
  }

  // ---------------------------------------------------------------------------
  // Grouping objects by what they belong to: a shard session or a collection

  // The first n objects with a key, in order.
  function Group<T, K(==)>(objects: seq<T>, keyFor: T -> K, n: nat, key: K): seq<T>
    requires n <= |objects|
  {
    if n == 0 then []
    else Group(objects, keyFor, n - 1, key) + (if keyFor(objects[n - 1]) == key then [objects[n - 1]] else [])
  }

  // The keys of the first n objects in the order in which they come up.
  function KeysInOrder<T, K(==)>(objects: seq<T>, keyFor: T -> K, n: nat): seq<K>
    requires n <= |objects|
  {
    if n == 0 then []
    else
      var before := KeysInOrder(objects, keyFor, n - 1);
      if keyFor(objects[n - 1]) in before then before else before + [keyFor(objects[n - 1])]
  }

  lemma {:induction false} KeysMean<T, K>(objects: seq<T>, keyFor: T -> K, n: nat)
    requires n <= |objects|
    ensures var r := KeysInOrder(objects, keyFor, n);
            && (forall i :: 0 <= i < n ==> keyFor(objects[i]) in r)
            && forall i, j :: 0 <= i < j < |r| ==> r[i] != r[j]
  {
    if n > 0 {
      KeysMean(objects, keyFor, n - 1);
    }
  }

  lemma {:induction false} NoGroup<T, K>(objects: seq<T>, keyFor: T -> K, n: nat, key: K)
    requires n <= |objects|
    ensures key !in KeysInOrder(objects, keyFor, n) ==> Group(objects, keyFor, n, key) == []
  {
    if n > 0 {
      NoGroup(objects, keyFor, n - 1, key);
    }
  }

  // The objects with a key, each at its place.
  function WithKey<T, K(==)>(objects: seq<T>, keyFor: T -> K, key: K): (r: seq<Option<T>>)
    ensures |r| == |objects|
    ensures forall i :: 0 <= i < |r| ==> r[i] == if keyFor(objects[i]) == key then Some(objects[i]) else None
  {
    seq(|objects|, i requires 0 <= i < |objects| =>
      if keyFor(objects[i]) == key then Some(objects[i]) else None)
  }

  lemma {:induction false} GroupUpTo<T, K>(objects: seq<T>, keyFor: T -> K, n: nat, key: K)
    requires n <= |objects|
    ensures Group(objects, keyFor, n, key) == Somes(WithKey(objects, keyFor, key)[..n])
  {
    if n > 0 {
      GroupUpTo(objects, keyFor, n - 1, key);
      assert WithKey(objects, keyFor, key)[..n][..n - 1] == WithKey(objects, keyFor, key)[..n - 1];
      assert Group(objects, keyFor, n - 1, key) + [] == Group(objects, keyFor, n - 1, key);
    }
  }

  /** A group has the objects with its key, all of them and in order. */
  lemma GroupKeepsOrder<T, K>(objects: seq<T>, keyFor: T -> K, key: K) returns (at: seq<nat>)
    ensures Picked(Group(objects, keyFor, |objects|, key), WithKey(objects, keyFor, key), at)
  {
    var things := WithKey(objects, keyFor, key);
    GroupUpTo(objects, keyFor, |objects|, key);
    at := SomesKeepOrder(things);
    assert things[..|objects|] == things;
  }

  // The key of every object that is the first with it.
  ghost function NewKeys<T, K>(objects: seq<T>, keyFor: T -> K): (r: seq<Option<K>>)
    ensures |r| == |objects|
    ensures forall i :: 0 <= i < |r| ==>
              r[i] == if forall j :: 0 <= j < i ==> keyFor(objects[j]) != keyFor(objects[i])
                      then Some(keyFor(objects[i])) else None
  {
    seq(|objects|, i requires 0 <= i < |objects| =>
      if forall j :: 0 <= j < i ==> keyFor(objects[j]) != keyFor(objects[i])
      then Some(keyFor(objects[i])) else None)
  }

  lemma {:induction false} KeyIsKnown<T, K>(objects: seq<T>, keyFor: T -> K, n: nat, key: K)
    requires n <= |objects|
    ensures key in KeysInOrder(objects, keyFor, n) <==> exists i :: 0 <= i < n && keyFor(objects[i]) == key
  {
    if n > 0 {
      KeyIsKnown(objects, keyFor, n - 1, key);
    }
  }

  function KeyIfNew<T, K(==)>(objects: seq<T>, keyFor: T -> K, i: nat): Option<K>
    requires i < |objects|
  {
    var key := keyFor(objects[i]);
    if key in KeysInOrder(objects, keyFor, i) then None else Some(key)
  }

  lemma {:induction false} KeysUpTo<T, K>(objects: seq<T>, keyFor: T -> K, n: nat, things: seq<Option<K>>)
    requires n <= |objects| == |things| && forall i :: 0 <= i < n ==> things[i] == KeyIfNew(objects, keyFor, i)
    ensures KeysInOrder(objects, keyFor, n) == Somes(things[..n])
  {
    if n > 0 {
      KeysUpTo(objects, keyFor, n - 1, things);
      assert things[..n][..n - 1] == things[..n - 1] && things[n - 1] == KeyIfNew(objects, keyFor, n - 1);
    }
  }

  /** The keys come in the order in which objects with them first come up. */
  lemma KeysKeepOrder<T, K>(objects: seq<T>, keyFor: T -> K) returns (at: seq<nat>)
    ensures Picked(KeysInOrder(objects, keyFor, |objects|), NewKeys(objects, keyFor), at)
  {
    var things := NewKeys(objects, keyFor);
    forall i | 0 <= i < |objects| ensures things[i] == KeyIfNew(objects, keyFor, i) {
      KeyIsKnown(objects, keyFor, i, keyFor(objects[i]));
    }
    KeysUpTo(objects, keyFor, |objects|, things);
    at := SomesKeepOrder(things);
    assert things[..|objects|] == things;
  }

  // The first n objects have been put into the group of their key.
  ghost predicate Grouped<T, K>(order: seq<K>, groups: map<K, seq<T>>, objects: seq<T>, keyFor: T -> K, n: nat)
    requires n <= |objects|
  {
    && order == KeysInOrder(objects, keyFor, n)
    && groups.Keys == (set s | s in order)
    && forall s :: s in groups ==> groups[s] == Group(objects, keyFor, n, s)
  }

  function Joined<T, K(==)>(groups: map<K, seq<T>>, key: K, o: T): map<K, seq<T>> {
    groups[key := (if key in groups then groups[key] else []) + [o]]
  }

  lemma GroupedStep<T, K>(order: seq<K>, groups: map<K, seq<T>>, objects: seq<T>, keyFor: T -> K, n: nat)
    requires n < |objects| && Grouped(order, groups, objects, keyFor, n)
    ensures var s := keyFor(objects[n]);
            Grouped(if s in groups then order else order + [s], Joined(groups, s, objects[n]), objects, keyFor, n + 1)
  {
    NoGroup(objects, keyFor, n, keyFor(objects[n]));
  }

  // `using_sharded_session`: the groups to hand out, one for each session, in the
  // order in which the sessions come up.
  method GroupBySession<T>(objects: seq<T>, sessionFor: T -> nat) returns (order: seq<nat>, groups: map<nat, seq<T>>)
    ensures Grouped(order, groups, objects, sessionFor, |objects|)
  {
    order, groups := [], map[];
    for i := 0 to |objects|
      invariant Grouped(order, groups, objects, sessionFor, i)
    {
      GroupedStep(order, groups, objects, sessionFor, i);
      var session := sessionFor(objects[i]);
      if session !in groups {
        order := order + [session];
      }
      groups := Joined(groups, session, objects[i]);
    }
  }

  // Sessions are numbered from `made` on as they are made, one for each collection, and
  // the cache holds the one that was made for a collection.
  ghost predicate Cached(made: nat, cache: map<string, nat>, names: seq<string>) {
    && cache.Keys == (set c | c in names)
    && forall i :: 0 <= i < |names| ==> cache[names[i]] == made + i
  }

  ghost predicate Numbered(made: nat, order: seq<nat>, names: seq<string>) {
    |order| == |names| && forall i :: 0 <= i < |order| ==> order[i] == made + i
  }

  // Each session has the group of its collection.
  ghost predicate HandedOut<T>(made: nat, groups: map<nat, seq<T>>, names: seq<string>, byName: map<string, seq<T>>)
    requires forall c :: c in names ==> c in byName
  {
    && (forall s :: s in groups <==> made <= s < made + |names|)
    && forall i :: 0 <= i < |names| ==> groups[made + i] == byName[names[i]]
  }

  // All of it: who has which session, which group, and in which order.
  ghost predicate Serves<T>(made: nat, cache: map<string, nat>, groups: map<nat, seq<T>>, order: seq<nat>,
                            names: seq<string>, byName: map<string, seq<T>>) {
    && byName.Keys == (set c | c in names)
    && Cached(made, cache, names) && HandedOut(made, groups, names, byName) && Numbered(made, order, names)
  }

  lemma SessionKnown<T>(made: nat, cache: map<string, nat>, groups: map<nat, seq<T>>, order: seq<nat>,
                        names: seq<string>, byName: map<string, seq<T>>, name: string, o: T)
    requires Serves(made, cache, groups, order, names, byName) && name in names
    ensures name in cache && name in byName
    ensures Serves(made, cache, Joined(groups, cache[name], o), order, names, Joined(byName, name, o))
  {
    var k :| 0 <= k < |names| && names[k] == name;
    assert forall i :: 0 <= i < |names| && names[i] == name ==> i == k;
  }

  lemma SessionMade<T>(made: nat, cache: map<string, nat>, groups: map<nat, seq<T>>, order: seq<nat>,
                       names: seq<string>, byName: map<string, seq<T>>, name: string, o: T)
    requires Serves(made, cache, groups, order, names, byName) && name !in names
    ensures var session := made + |order|;
            && name !in cache && name !in byName
            && Serves(made, cache[name := session], Joined(groups, session, o), order + [session],
                      names + [name], Joined(byName, name, o))
  {
  }

  // One object goes to the session of its collection, which is made if there is none yet.
  method Serve<T>(made: nat, cache: map<string, nat>, groups: map<nat, seq<T>>, order: seq<nat>,
                  name: string, o: T, ghost names: seq<string>, ghost byName: map<string, seq<T>>)
    returns (cache': map<string, nat>, groups': map<nat, seq<T>>, order': seq<nat>)
    requires Serves(made, cache, groups, order, names, byName)
    ensures name in byName ==> Serves(made, cache', groups', order', names, Joined(byName, name, o))
    ensures name !in byName ==> Serves(made, cache', groups', order', names + [name], Joined(byName, name, o))
  {
    assert name in cache <==> name in names;
    if name in cache {
      SessionKnown(made, cache, groups, order, names, byName, name, o);
      cache', groups', order' := cache, Joined(groups, cache[name], o), order;
    } else {
      SessionMade(made, cache, groups, order, names, byName, name, o);
      var session := made + |order|;
      cache', groups', order' := cache[name := session], Joined(groups, session, o), order + [session];
    }
  }

  // The sessions and their groups, in order, are those of the collections.
  ghost predicate ByCollection<T>(made: nat, order: seq<nat>, groups: map<nat, seq<T>>, objects: seq<T>,
                                  collectionFor: T -> string) {
    var names := KeysInOrder(objects, collectionFor, |objects|);
    && |order| == |names|
    && (forall i :: 0 <= i < |order| ==> order[i] == made + i)
    && (forall s :: s in groups <==> made <= s < made + |names|)
    && forall i :: 0 <= i < |names| ==> groups[made + i] == Group(objects, collectionFor, |objects|, names[i])
  }

  lemma AllHandedOut<T>(made: nat, order: seq<nat>, groups: map<nat, seq<T>>, names: seq<string>,
                        byName: map<string, seq<T>>, objects: seq<T>, collectionFor: T -> string)
    requires Grouped(names, byName, objects, collectionFor, |objects|)
    requires HandedOut(made, groups, names, byName) && Numbered(made, order, names)
    ensures ByCollection(made, order, groups, objects, collectionFor)
  {
  }

  // `using_collection_session`: a session is a new object each time one is made for a
  // collection, so what keeps a collection together is the cache.
  method GroupByCollection<T>(objects: seq<T>, collectionFor: T -> string, made: nat)
    returns (order: seq<nat>, groups: map<nat, seq<T>>)
    ensures ByCollection(made, order, groups, objects, collectionFor)
  {
    var cache: map<string, nat> := map[];
    ghost var names: seq<string>, byName: map<string, seq<T>> := [], map[];
    order, groups := [], map[];
    for n := 0 to |objects|
      invariant Grouped(names, byName, objects, collectionFor, n)
      invariant Serves(made, cache, groups, order, names, byName)
    {
      var o := objects[n];
      var name := collectionFor(o);
      GroupedStep(names, byName, objects, collectionFor, n);
      cache, groups, order := Serve(made, cache, groups, order, name, o, names, byName);
      names := if name in byName then names else names + [name];
      byName := Joined(byName, name, o);
    }
    AllHandedOut(made, order, groups, names, byName, objects, collectionFor);
  }

  function Together<T, K(==)>(objects: seq<T>, keyFor: T -> K, n: nat, keys: seq<K>): multiset<T>
    requires n <= |objects|
    decreases keys
  {
    if keys == [] then multiset{}
    else multiset(Group(objects, keyFor, n, keys[0])) + Together(objects, keyFor, n, keys[1..])
  }

  lemma {:induction false} OneMoreObject<T, K>(objects: seq<T>, keyFor: T -> K, n: nat, keys: seq<K>)
    requires n < |objects| && forall i, j :: 0 <= i < j < |keys| ==> keys[i] != keys[j]
    ensures Together(objects, keyFor, n + 1, keys) ==
            Together(objects, keyFor, n, keys) +
            if keyFor(objects[n]) in keys then multiset{objects[n]} else multiset{}
    decreases keys
  {
    if keys != [] {
      var key := keyFor(objects[n]);
      OneMoreObject(objects, keyFor, n, keys[1..]);
      assert key in keys <==> key == keys[0] || key in keys[1..];
    }
  }

  lemma {:induction false} NothingTogether<T, K>(objects: seq<T>, keyFor: T -> K, keys: seq<K>)
    ensures Together(objects, keyFor, 0, keys) == multiset{}
    decreases keys
  {
    if keys != [] {
      NothingTogether(objects, keyFor, keys[1..]);
    }
  }

  lemma {:induction false} TogetherIsAll<T, K>(objects: seq<T>, keyFor: T -> K, n: nat, keys: seq<K>)
    requires n <= |objects| && forall i, j :: 0 <= i < j < |keys| ==> keys[i] != keys[j]
    requires forall i :: 0 <= i < n ==> keyFor(objects[i]) in keys
    ensures Together(objects, keyFor, n, keys) == multiset(objects[..n])
  {
    if n == 0 {
      NothingTogether(objects, keyFor, keys);
    } else {
      assert objects[..n] == objects[..n - 1] + [objects[n - 1]];
      OneMoreObject(objects, keyFor, n - 1, keys);
      TogetherIsAll(objects, keyFor, n - 1, keys);
    }
  }

  /** Grouping is a partition: the groups together are the objects, none left out and
      none handed out twice. */
  lemma GroupsPartition<T, K>(objects: seq<T>, keyFor: T -> K)
    ensures Together(objects, keyFor, |objects|, KeysInOrder(objects, keyFor, |objects|)) == multiset(objects)
  {
    KeysMean(objects, keyFor, |objects|);
    TogetherIsAll(objects, keyFor, |objects|, KeysInOrder(objects, keyFor, |objects|));
    assert objects[..|objects|] == objects;
  }
}
