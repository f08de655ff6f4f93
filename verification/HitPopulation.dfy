/**
  Binding hits to the records they stand for. Records are loaded class by class and
  may come back in any order, more than once, unasked for, or not at all.
 */
module HitPopulation {
  import opened Order
  import opened Wrappers

  // A record with its key as a string.
  datatype Record = Record(key: string, content: nat)

  // What a data accessor returns for the hits of a class.
  type Loader = string -> seq<Record>

  function FirstWithKey(records: seq<Record>, key: string): Option<Record> {
    if records == [] then None
    else if records[0].key == key then Some(records[0])
    else FirstWithKey(records[1..], key)
  }

  /** The first record with a key comes before all others with that key. */
  lemma {:induction false} FirstWithKeyMeans(records: seq<Record>, key: string, r: Record)
    ensures FirstWithKey(records, key) == Some(r) <==>
              exists i :: 0 <= i < |records| && records[i] == r && r.key == key &&
                          forall j :: 0 <= j < i ==> records[j].key != key
  {
    if records != [] {
      var rest := records[1..];
      FirstWithKeyMeans(rest, key, r);
      assert forall j :: 0 < j < |records| ==> records[j] == rest[j - 1];
      if i :| 0 <= i < |rest| && rest[i] == r && r.key == key && forall j :: 0 <= j < i ==> rest[j].key != key {
        assert records[i + 1] == r;
      }
      if records[0].key != key {
        if i :| 0 <= i < |records| && records[i] == r && r.key == key &&
                forall j :: 0 <= j < i ==> records[j].key != key {
          assert rest[i - 1] == r && forall j :: 0 <= j < i - 1 ==> rest[j].key != key;
        }
        assert rest != records;
      }
    }
  }

  lemma {:induction false} FirstWithKeyGrows(records: seq<Record>, n: nat, key: string)
    requires n < |records|
    ensures FirstWithKey(records[..n + 1], key) ==
            if FirstWithKey(records[..n], key).Some? then FirstWithKey(records[..n], key)
            else if records[n].key == key then Some(records[n]) else None
  {
    if n > 0 {
      assert records[..n + 1][1..] == records[1..][..n];
      assert records[..n][1..] == records[1..][..n - 1];
      FirstWithKeyGrows(records[1..], n - 1, key);
    }
  }

  // `result` is undefined until it is assigned; a missing record is assigned as nil.
  class Hit {
    const className: string
    const primaryKey: string
    var result: Option<Option<Record>>
    ghost var assignments: nat

    constructor (className: string, primaryKey: string)
      ensures this.className == className && this.primaryKey == primaryKey
      ensures result == None && assignments == 0
    {
      this.className, this.primaryKey := className, primaryKey;
      result, assignments := None, 0;
    }

    method Assign(r: Option<Record>)
      modifies this
      ensures result == Some(r) && assignments == old(assignments) + 1
    {
      result, assignments := Some(r), assignments + 1;
    }
  }

  // The hits of one class by key.
  predicate Keyed(table: map<string, Hit>) {
    forall k :: k in table ==> table[k].primaryKey == k
  }

  // Assign nil to every hit of a table.
  method AssignMissing(table: map<string, Hit>)
    requires Keyed(table)
    modifies table.Values
    ensures forall k :: k in table ==>
              table[k].result == Some(None) && table[k].assignments == old(table[k].assignments) + 1
  {
    var left := table.Keys;
    while left != {}
      invariant left <= table.Keys
      invariant forall k :: k in left ==> unchanged(table[k])
      invariant forall k :: k in table && k !in left ==>
                  table[k].result == Some(None) && table[k].assignments == old(table[k].assignments) + 1
    {
      var key :| key in left;
      table[key].Assign(None);
      left := left - {key};
    }
  }

  // Bind the hits of one class that a record comes back for; the rest stay waiting.
  method BindRecords(table: map<string, Hit>, records: seq<Record>) returns (waiting: map<string, Hit>)
    requires Keyed(table)
    modifies table.Values
    ensures waiting == map k | k in table && FirstWithKey(records, k).None? :: table[k]
    ensures forall k :: k in waiting ==> unchanged(table[k])
    ensures forall k :: k in table && k !in waiting ==>
              table[k].result == Some(FirstWithKey(records, k)) && table[k].assignments == old(table[k].assignments) + 1
  {
    waiting := table;
    for i := 0 to |records|
      invariant waiting.Keys <= table.Keys && forall k :: k in waiting ==> waiting[k] == table[k]
      invariant forall k :: k in table ==> (k in waiting <==> FirstWithKey(records[..i], k).None?)
      invariant forall k :: k in waiting ==> unchanged(table[k])
      invariant forall k :: k in table && k !in waiting ==>
                  && table[k].result == Some(FirstWithKey(records[..i], k))
                  && table[k].assignments == old(table[k].assignments) + 1
    {
      forall k | k in table {
        FirstWithKeyGrows(records, i, k);
      }
      var key := records[i].key;
      if key in waiting {
        waiting[key].Assign(Some(records[i]));
        waiting := waiting - {key};
      }
    }
    assert records[..|records|] == records;
  }

  // Bind the hits of one class: each gets the first record with its key, or nil, and
  // is assigned once.
  method PopulateClass(table: map<string, Hit>, records: seq<Record>)
    requires Keyed(table)
    modifies table.Values
    ensures forall k :: k in table ==>
              table[k].result == Some(FirstWithKey(records, k)) && table[k].assignments == old(table[k].assignments) + 1
  {
    var waiting := BindRecords(table, records);
    AssignMissing(waiting);
  }

  // ---------------------------------------------------------------------------
  // All hits of a search

  // The last of the first n hits for a document.
  function LastHit(hits: seq<Hit>, n: nat, className: string, key: string): Option<Hit>
    requires n <= |hits|
  {
    if n == 0 then None
    else if hits[n - 1].className == className && hits[n - 1].primaryKey == key then Some(hits[n - 1])
    else LastHit(hits, n - 1, className, key)
  }

  predicate IsLast(hits: seq<Hit>, h: Hit) {
    LastHit(hits, |hits|, h.className, h.primaryKey) == Some(h)
  }

  lemma {:induction false} LastHitFits(hits: seq<Hit>, n: nat, className: string, key: string)
    requires n <= |hits|
    ensures var h := LastHit(hits, n, className, key);
            h.Some? ==> h.value in hits && h.value.className == className && h.value.primaryKey == key
  {
    if n > 0 {
      LastHitFits(hits, n - 1, className, key);
    }
  }

  predicate Distinct(hits: seq<Hit>) {
    forall i, j :: 0 <= i < j < |hits| ==> hits[i] != hits[j]
  }

  // One table for each class.
  type Tables = map<string, map<string, Hit>>

  function Lookup(tables: Tables, className: string, key: string): Option<Hit> {
    if className in tables && key in tables[className] then Some(tables[className][key]) else None
  }

  // A later hit of a document takes the place of an earlier one.
  method BuildTables(hits: seq<Hit>) returns (tables: Tables)
    ensures forall c, k :: Lookup(tables, c, k) == LastHit(hits, |hits|, c, k)
  {
    tables := map[];
    for n := 0 to |hits|
      invariant forall c, k :: Lookup(tables, c, k) == LastHit(hits, n, c, k)
    {
      var h := hits[n];
      var table: map<string, Hit> := if h.className in tables then tables[h.className] else map[];
      tables := tables[h.className := table[h.primaryKey := h]];
    }
  }

  // The result a hit should have after population.
  predicate Bound(h: Hit, load: Loader)
    reads h
  {
    h.result == Some(FirstWithKey(load(h.className), h.primaryKey))
  }

  // `populate_hits`: the last hit of every document is assigned once and gets its
  // record; an earlier hit of the same document is left alone.
  method PopulateHits(hits: seq<Hit>, load: Loader)
    requires Distinct(hits)
    modifies hits
    ensures forall h :: h in hits ==>
              if IsLast(hits, h) then Bound(h, load) && h.assignments == old(h.assignments) + 1 else unchanged(h)
  {
    var tables := BuildTables(hits);
    var classes := tables.Keys;
    while classes != {}
      invariant classes <= tables.Keys
      invariant forall h :: h in hits ==>
                  if IsLast(hits, h) && h.className !in classes
                  then Bound(h, load) && h.assignments == old(h.assignments) + 1
                  else unchanged(h)
    {
      var c :| c in classes;
      PopulateOne(hits, tables, c, load);
      classes := classes - {c};
    }
  }

  // The hits of one class.
  method PopulateOne(hits: seq<Hit>, tables: Tables, c: string, load: Loader)
    requires c in tables && forall d, k :: Lookup(tables, d, k) == LastHit(hits, |hits|, d, k)
    modifies hits
    ensures forall h :: h in hits ==>
              if IsLast(hits, h) && h.className == c then Bound(h, load) && h.assignments == old(h.assignments) + 1
              else unchanged(h)
  {
    var table := tables[c];
    forall k | k in table
      ensures table[k] in hits && table[k].primaryKey == k && table[k].className == c && IsLast(hits, table[k])
    {
      assert Lookup(tables, c, k) == Some(table[k]);
      LastHitFits(hits, |hits|, c, k);
    }
    forall h | h in hits && IsLast(hits, h) && h.className == c
      ensures h.primaryKey in table && table[h.primaryKey] == h
    {
      assert Lookup(tables, c, h.primaryKey) == Some(h);
    }
    PopulateClass(table, load(c));
  }

  // ---------------------------------------------------------------------------
  // The results of a search

  function RecordOf(h: Hit, load: Loader): Option<Record> {
    FirstWithKey(load(h.className), h.primaryKey)
  }

  // The records of the first n hits in the order Solr returned them, without hits
  // whose record is gone and without earlier hits of a document that comes again.
  function RecordsOf(hits: seq<Hit>, n: nat, load: Loader): seq<Record>
    requires n <= |hits|
  {
    if n == 0 then []
    else
      var h := hits[n - 1];
      RecordsOf(hits, n - 1, load) +
      if IsLast(hits, h) && RecordOf(h, load).Some? then [RecordOf(h, load).value] else []
  }

  predicate SameDocument(g: Hit, h: Hit) {
    g.className == h.className && g.primaryKey == h.primaryKey
  }

  lemma {:induction false} LastHitMeans(hits: seq<Hit>, n: nat, i: nat)
    requires i < n <= |hits| && Distinct(hits)
    ensures LastHit(hits, n, hits[i].className, hits[i].primaryKey) == Some(hits[i]) <==>
              forall j :: i < j < n ==> !SameDocument(hits[i], hits[j])
  {
    if i < n - 1 && !SameDocument(hits[i], hits[n - 1]) {
      LastHitMeans(hits, n - 1, i);
    }
  }

  // What each hit adds to the results: its record, if there is one and no later hit is of
  // the same document.
  ghost function ResultOf(hits: seq<Hit>, i: nat, load: Loader): Option<Record>
    requires i < |hits|
  {
    if forall j :: i < j < |hits| ==> !SameDocument(hits[i], hits[j])
    then FirstWithKey(load(hits[i].className), hits[i].primaryKey)
    else None
  }

  ghost function ResultsOf(hits: seq<Hit>, load: Loader): (rs: seq<Option<Record>>)
    ensures |rs| == |hits| && forall i :: 0 <= i < |hits| ==> rs[i] == ResultOf(hits, i, load)
  {
    seq(|hits|, i requires 0 <= i < |hits| => ResultOf(hits, i, load))
  }

  function AddedBy(hits: seq<Hit>, i: nat, load: Loader): Option<Record>
    requires i < |hits|
  {
    if IsLast(hits, hits[i]) then RecordOf(hits[i], load) else None
  }

  lemma {:induction false} RecordsUpTo(hits: seq<Hit>, n: nat, load: Loader, things: seq<Option<Record>>)
    requires n <= |hits| == |things| && forall i :: 0 <= i < n ==> things[i] == AddedBy(hits, i, load)
    ensures RecordsOf(hits, n, load) == Somes(things[..n])
  {
    if n > 0 {
      RecordsUpTo(hits, n - 1, load, things);
      assert things[..n][..n - 1] == things[..n - 1] && things[n - 1] == AddedBy(hits, n - 1, load);
      assert RecordsOf(hits, n - 1, load) + [] == RecordsOf(hits, n - 1, load);
    }
  }

  /** The results are the records of the hits that add one, in the order of the hits. */
  lemma RecordsInHitOrder(hits: seq<Hit>, load: Loader) returns (at: seq<nat>)
    requires Distinct(hits)
    ensures Picked(RecordsOf(hits, |hits|, load), ResultsOf(hits, load), at)
  {
    var things := ResultsOf(hits, load);
    forall i | 0 <= i < |hits| ensures things[i] == AddedBy(hits, i, load) {
      LastHitMeans(hits, |hits|, i);
    }
    RecordsUpTo(hits, |hits|, load, things);
    at := SomesKeepOrder(things);
    assert things[..|hits|] == things;
  }

  // `verified_hits` mapped to their instances. Asking a hit for its result populates
  // all hits unless it has one already.
  method Results(hits: seq<Hit>, load: Loader) returns (records: seq<Record>)
    requires Distinct(hits) && forall h :: h in hits ==> h.result == None
    modifies hits
    ensures records == RecordsOf(hits, |hits|, load)
    ensures exists at :: Picked(records, ResultsOf(hits, load), at)
    ensures hits != [] ==> forall h :: h in hits && IsLast(hits, h) ==> Bound(h, load)
  {
    records := [];
    for n := 0 to |hits|
      invariant forall h :: h in hits && !IsLast(hits, h) ==> h.result == None
      invariant if n == 0 then forall h :: h in hits ==> h.result == None
                else forall h :: h in hits && IsLast(hits, h) ==> Bound(h, load)
      invariant records == RecordsOf(hits, n, load)
    {
      if hits[n].result == None {
        PopulateHits(hits, load);
      }
      if hits[n].result != None && hits[n].result.value.Some? {
        records := records + [hits[n].result.value.value];
      }
    }
    ghost var at := RecordsInHitOrder(hits, load);
  }

  /** If Solr returns every document once, every hit counts. */
  lemma {:induction false} EveryHitIsLast(hits: seq<Hit>, n: nat, i: nat)
    requires i < n <= |hits|
    requires forall j, k :: 0 <= j < k < |hits| ==>
               !(hits[j].className == hits[k].className && hits[j].primaryKey == hits[k].primaryKey)
    ensures LastHit(hits, n, hits[i].className, hits[i].primaryKey) == Some(hits[i])
  {
    if i < n - 1 {
      EveryHitIsLast(hits, n - 1, i);
    }
  }

  // ---------------------------------------------------------------------------
  // Grouped searches: several hits for one key

  predicate KeyedGroups(table: map<string, seq<Hit>>) {
    && (forall k, i :: k in table && 0 <= i < |table[k]| ==> table[k][i].primaryKey == k)
    && (forall k :: k in table ==> Distinct(table[k]))
  }

  function AllHits(table: map<string, seq<Hit>>): set<Hit> {
    set k, h | k in table && h in table[k] :: h
  }

  // The records are what was asked for, each once.
  predicate Exact(keys: set<string>, records: seq<Record>) {
    && (forall i :: 0 <= i < |records| ==> records[i].key in keys)
    && (forall i, j :: 0 <= i < j < |records| ==> records[i].key != records[j].key)
  }

  method AssignAll(hits: seq<Hit>, r: Option<Record>)
    requires Distinct(hits)
    modifies hits
    ensures forall h :: h in hits ==> h.result == Some(r) && h.assignments == old(h.assignments) + 1
  {
    for i := 0 to |hits|
      invariant forall j :: 0 <= j < i ==>
                  hits[j].result == Some(r) && hits[j].assignments == old(hits[j].assignments) + 1
      invariant forall j :: i <= j < |hits| ==> unchanged(hits[j])
    {
      hits[i].Assign(r);
    }
  }

  // A hit is in the group of its key and in no other.
  lemma GroupMembers(table: map<string, seq<Hit>>)
    requires KeyedGroups(table)
    ensures forall h :: h in AllHits(table) ==> h.primaryKey in table && h in table[h.primaryKey]
    ensures forall k, h :: k in table && h in table[k] ==> h in AllHits(table) && h.primaryKey == k
  {
  }

  // Bind the hits of one class that a record comes back for. Fails at a record that
  // is not waited for.
  method BindGroups(table: map<string, seq<Hit>>, records: seq<Record>)
    returns (ok: bool, waiting: map<string, seq<Hit>>)
    requires KeyedGroups(table)
    modifies AllHits(table)
    ensures ok <==> Exact(table.Keys, records)
    ensures ok ==> waiting == map k | k in table && FirstWithKey(records, k).None? :: table[k]
    ensures ok ==> forall h :: h in AllHits(table) ==>
              if h.primaryKey in waiting then unchanged(h)
              else h.result == Some(FirstWithKey(records, h.primaryKey)) && h.assignments == old(h.assignments) + 1
  {
    GroupMembers(table);
    waiting := table;
    for i := 0 to |records|
      invariant waiting.Keys <= table.Keys && forall k :: k in waiting ==> waiting[k] == table[k]
      invariant Exact(table.Keys, records[..i])
      invariant forall k :: k in table ==> (k in waiting <==> FirstWithKey(records[..i], k).None?)
      invariant forall h :: h in AllHits(table) ==>
                  if h.primaryKey in waiting then unchanged(h)
                  else
                    && h.result == Some(FirstWithKey(records[..i], h.primaryKey))
                    && h.assignments == old(h.assignments) + 1
    {
      forall k | k in table {
        FirstWithKeyGrows(records, i, k);
      }
      AskedOnce(table.Keys, records, i);
      var key := records[i].key;
      if key !in waiting {
        assert !Exact(table.Keys, records[..i + 1]);
        return false, waiting;
      }
      AssignAll(table[key], Some(records[i]));
      waiting := waiting - {key};
    }
    assert records[..|records|] == records;
    ok := true;
  }

  method AssignMissingGroups(table: map<string, seq<Hit>>)
    requires KeyedGroups(table)
    modifies AllHits(table)
    ensures forall h :: h in AllHits(table) ==> h.result == Some(None) && h.assignments == old(h.assignments) + 1
  {
    GroupMembers(table);
    var left := table.Keys;
    while left != {}
      invariant left <= table.Keys
      invariant forall h :: h in AllHits(table) ==>
                  if h.primaryKey in left then unchanged(h)
                  else h.result == Some(None) && h.assignments == old(h.assignments) + 1
    {
      var key :| key in left;
      AssignAll(table[key], None);
      left := left - {key};
    }
  }

  // The hits of one class in `populate_all_hits`. It fails, as the source does with a
  // method call on nil, if and only if a record comes back unasked for or twice;
  // otherwise every hit is assigned once.
  method PopulateGroups(table: map<string, seq<Hit>>, records: seq<Record>) returns (ok: bool)
    requires KeyedGroups(table)
    modifies AllHits(table)
    ensures ok <==> Exact(table.Keys, records)
    ensures ok ==> forall h :: h in AllHits(table) ==>
              h.result == Some(FirstWithKey(records, h.primaryKey)) && h.assignments == old(h.assignments) + 1
  {
    var waiting;
    ok, waiting := BindGroups(table, records);
    if ok {
      GroupMembers(table);
      GroupMembers(waiting);
      assert forall h :: h in AllHits(waiting) ==> h in table[h.primaryKey];
      AssignMissingGroups(waiting);
    }
  }

  // The next record can be bound exactly if its key is asked for and not yet taken.
  lemma AskedOnce(keys: set<string>, records: seq<Record>, i: nat)
    requires i < |records| && Exact(keys, records[..i])
    ensures Exact(keys, records[..i + 1]) <==>
              records[i].key in keys && FirstWithKey(records[..i], records[i].key).None?
    ensures !Exact(keys, records[..i + 1]) ==> !Exact(keys, records)
  {
    KeyIsTaken(records[..i], records[i].key);
    assert forall j :: 0 <= j < i + 1 ==> records[..i + 1][j] == records[j];
    assert forall j :: 0 <= j < i ==> records[..i][j] == records[j];
  }

  lemma {:induction false} KeyIsTaken(records: seq<Record>, key: string)
    ensures FirstWithKey(records, key).Some? <==> exists j :: 0 <= j < |records| && records[j].key == key
  {
    if records != [] {
      KeyIsTaken(records[1..], key);
      assert forall j :: 0 < j < |records| ==> records[j] == records[1..][j - 1];
      assert forall j :: 0 <= j < |records[1..]| ==> records[1..][j] == records[j + 1];
    }
  }

  // ---------------------------------------------------------------------------
  // All hits of a grouped search

  // The hits for a document among the first n, in order; `|=` keeps a hit that is
  // already there from being added again.
  function HitsFor(hits: seq<Hit>, n: nat, className: string, key: string): seq<Hit>
    requires n <= |hits|
  {
    if n == 0 then []
    else
      var (before, h) := (HitsFor(hits, n - 1, className, key), hits[n - 1]);
      if h.className == className && h.primaryKey == key && h !in before then before + [h] else before
  }

  lemma {:induction false} HitsForMean(hits: seq<Hit>, n: nat, className: string, key: string)
    requires n <= |hits|
    ensures Distinct(HitsFor(hits, n, className, key))
    ensures forall h :: h in HitsFor(hits, n, className, key) <==>
              h in hits[..n] && h.className == className && h.primaryKey == key
  {
    if n > 0 {
      HitsForMean(hits, n - 1, className, key);
      assert hits[..n] == hits[..n - 1] + [hits[n - 1]];
    }
  }

  // For each class, its hits by key.
  type GroupTables = map<string, map<string, seq<Hit>>>

  function LookupHits(tables: GroupTables, className: string, key: string): seq<Hit> {
    if className in tables && key in tables[className] then tables[className][key] else []
  }

  predicate NoEmptyEntry(tables: GroupTables) {
    forall c, k :: c in tables && k in tables[c] ==> tables[c][k] != []
  }

  // The tables hold, for every document, its hits among the first n.
  ghost predicate TabledUpTo(hits: seq<Hit>, n: nat, tables: GroupTables)
    requires n <= |hits|
  {
    && NoEmptyEntry(tables) && tables.Keys == (set h | h in hits[..n] :: h.className)
    && forall c, k :: LookupHits(tables, c, k) == HitsFor(hits, n, c, k)
  }

  ghost predicate Tabled(hits: seq<Hit>, tables: GroupTables) {
    TabledUpTo(hits, |hits|, tables)
  }

  function WithHit(tables: GroupTables, h: Hit): GroupTables {
    var table: map<string, seq<Hit>> := if h.className in tables then tables[h.className] else map[];
    var same := if h.primaryKey in table then table[h.primaryKey] else [];
    tables[h.className := table[h.primaryKey := if h in same then same else same + [h]]]
  }

  lemma WithHitLookup(tables: GroupTables, h: Hit, c: string, k: string)
    ensures var same := LookupHits(tables, c, k);
            LookupHits(WithHit(tables, h), c, k) ==
              if h.className == c && h.primaryKey == k && h !in same then same + [h] else same
  {
  }

  lemma OneHitMore(hits: seq<Hit>, n: nat, tables: GroupTables)
    requires n < |hits| && TabledUpTo(hits, n, tables)
    ensures TabledUpTo(hits, n + 1, WithHit(tables, hits[n]))
  {
    var h, more := hits[n], WithHit(tables, hits[n]);
    assert hits[..n + 1] == hits[..n] + [h];
    forall c, k ensures LookupHits(more, c, k) == HitsFor(hits, n + 1, c, k) {
      WithHitLookup(tables, h, c, k);
      assert LookupHits(tables, c, k) == HitsFor(hits, n, c, k);
    }
  }

  // The two-level hash of `populate_all_hits`, from the hits of all groups in order.
  method BuildGroups(hits: seq<Hit>) returns (tables: GroupTables)
    ensures Tabled(hits, tables)
  {
    tables := map[];
    for n := 0 to |hits|
      invariant TabledUpTo(hits, n, tables)
    {
      OneHitMore(hits, n, tables);
      tables := WithHit(tables, hits[n]);
    }
  }

  function KeysOf(hits: seq<Hit>, className: string): set<string> {
    set h | h in hits && h.className == className :: h.primaryKey
  }

  lemma EntryOfClass(hits: seq<Hit>, tables: GroupTables, c: string, k: string)
    requires Tabled(hits, tables) && c in tables
    ensures k in tables[c] <==> k in KeysOf(hits, c)
    ensures k in tables[c] ==>
              && Distinct(tables[c][k])
              && forall h :: h in tables[c][k] <==> h in hits && h.className == c && h.primaryKey == k
  {
    HitsForMean(hits, |hits|, c, k);
    assert hits[..|hits|] == hits;
    assert LookupHits(tables, c, k) == HitsFor(hits, |hits|, c, k);
    if k in tables[c] {
      assert tables[c][k][0] in tables[c][k];
    }
  }

  lemma TableOfClass(hits: seq<Hit>, tables: GroupTables, c: string)
    requires Tabled(hits, tables) && c in tables
    ensures KeyedGroups(tables[c]) && tables[c].Keys == KeysOf(hits, c)
    ensures forall h :: h in AllHits(tables[c]) <==> h in hits && h.className == c
  {
    var table := tables[c];
    forall k
      ensures k in table <==> k in KeysOf(hits, c)
      ensures k in table ==>
                Distinct(table[k]) && forall h :: h in table[k] <==> h in hits && h.className == c && h.primaryKey == k
    {
      EntryOfClass(hits, tables, c, k);
    }
    forall h | h in hits && h.className == c ensures h in AllHits(table) {
      assert h.primaryKey in table;
    }
  }

  // One class of a grouped search.
  method PopulateGroupsOf(hits: seq<Hit>, tables: GroupTables, c: string, load: Loader) returns (ok: bool)
    requires Tabled(hits, tables) && c in tables
    modifies hits
    ensures ok <==> Exact(KeysOf(hits, c), load(c))
    ensures ok ==> forall h :: h in hits ==>
              if h.className == c then Bound(h, load) && h.assignments == old(h.assignments) + 1 else unchanged(h)
  {
    TableOfClass(hits, tables, c);
    ok := PopulateGroups(tables[c], load(c));
  }

  // For every class the records are what its hits ask for, each once.
  predicate AllExact(hits: seq<Hit>, load: Loader) {
    forall h :: h in hits ==> Exact(KeysOf(hits, h.className), load(h.className))
  }

  // `populate_all_hits`: fails if and only if for some class a record comes back unasked
  // for or twice. Otherwise every hit of every group is assigned once, several hits of
  // one document each for itself, and gets the record of its document.
  method PopulateAllHits(hits: seq<Hit>, load: Loader) returns (ok: bool)
    modifies hits
    ensures ok <==> AllExact(hits, load)
    ensures ok ==> forall h :: h in hits ==> Bound(h, load) && h.assignments == old(h.assignments) + 1
  {
    var tables := BuildGroups(hits);
    var classes := tables.Keys;
    while classes != {}
      invariant classes <= tables.Keys
      invariant forall c :: c in tables && c !in classes ==> Exact(KeysOf(hits, c), load(c))
      invariant forall h :: h in hits ==>
                  if h.className in classes then unchanged(h)
                  else Bound(h, load) && h.assignments == old(h.assignments) + 1
    {
      var c :| c in classes;
      ok := PopulateGroupsOf(hits, tables, c, load);
      if !ok {
        return;
      }
      classes := classes - {c};
    }
    ok := true;
  }

  // A record that comes back twice, or for nothing, is enough to fail.
  lemma OneRecordTooMany(r: Record)
    ensures Exact({r.key}, [r]) && !Exact({r.key}, [r, r]) && !Exact({}, [r])
  {
    assert [r, r][0].key == [r, r][1].key && [r][0].key !in {};
  }
}
