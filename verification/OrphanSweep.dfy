/**
  Finding and removing documents whose records are gone, by paging through an index
  that does not change meanwhile.
 */
module OrphanSweep {
  import opened Order
  import opened Wrappers

  type Id = int

  // The ids on a page: Solr's answer to a start and a number of rows.
  function PageOf(index: seq<Id>, page: nat, perPage: nat): (ids: seq<Id>)
    requires page >= 1
    ensures |ids| <= perPage
  {
    var start := (page - 1) * perPage;
    if start >= |index| then []
    else if start + perPage >= |index| then index[start..]
    else index[start..start + perPage]
  }

  function Missing(ids: seq<Id>, database: set<Id>): (r: seq<Id>)
    ensures forall id :: id in r <==> id in ids && id !in database
  {
    if ids == [] then []
    else (if ids[0] in database then [] else [ids[0]]) + Missing(ids[1..], database)
  }

  // The ids without a record, each at its place.
  function WithoutRecord(ids: seq<Id>, database: set<Id>): (r: seq<Option<Id>>)
    ensures |r| == |ids|
    ensures forall i :: 0 <= i < |r| ==> r[i] == if ids[i] in database then None else Some(ids[i])
  {
    seq(|ids|, i requires 0 <= i < |ids| => if ids[i] in database then None else Some(ids[i]))
  }

  lemma {:induction false} MissingAppend(ids: seq<Id>, id: Id, database: set<Id>)
    ensures Missing(ids + [id], database) == Missing(ids, database) + if id in database then [] else [id]
  {
    if ids != [] {
      assert (ids + [id])[1..] == ids[1..] + [id];
      MissingAppend(ids[1..], id, database);
    }
  }

  lemma {:induction false} MissingUpTo(ids: seq<Id>, n: nat, database: set<Id>)
    requires n <= |ids|
    ensures Missing(ids[..n], database) == Somes(WithoutRecord(ids, database)[..n])
  {
    if n > 0 {
      MissingUpTo(ids, n - 1, database);
      assert ids[..n] == ids[..n - 1] + [ids[n - 1]];
      MissingAppend(ids[..n - 1], ids[n - 1], database);
      assert WithoutRecord(ids, database)[..n][..n - 1] == WithoutRecord(ids, database)[..n - 1];
      assert Missing(ids[..n - 1], database) + [] == Missing(ids[..n - 1], database);
    }
  }

  /** The ids without a record come in the order of the index, as often as they are
      there. */
  lemma MissingInOrder(ids: seq<Id>, database: set<Id>) returns (at: seq<nat>)
    ensures Picked(Missing(ids, database), WithoutRecord(ids, database), at)
  {
    MissingUpTo(ids, |ids|, database);
    at := SomesKeepOrder(WithoutRecord(ids, database));
    assert ids[..|ids|] == ids && WithoutRecord(ids, database)[..|ids|] == WithoutRecord(ids, database);
  }

  function UpTo(index: seq<Id>, n: nat): seq<Id> {
    if n >= |index| then index else index[..n]
  }

  lemma OnePageMore(index: seq<Id>, page: nat, perPage: nat)
    requires page >= 1
    ensures page * perPage == (page - 1) * perPage + perPage
    ensures UpTo(index, page * perPage) == UpTo(index, (page - 1) * perPage) + PageOf(index, page, perPage)
    ensures PageOf(index, page, perPage) == [] <==> perPage == 0 || (page - 1) * perPage >= |index|
  {
    var start := (page - 1) * perPage;
    assert page * perPage == start + perPage;
    if start < |index| && start + perPage < |index| {
      assert index[..start + perPage] == index[..start] + index[start..start + perPage];
    } else if start < |index| {
      assert index == index[..start] + index[start..];
    }
  }

  // `solr_index_orphans`, with the number of searches it makes: the ids without a
  // record, in index order. With a batch size of zero it finds none.
  method IndexOrphans(index: seq<Id>, database: set<Id>, batchSize: nat) returns (orphans: seq<Id>, searches: nat)
    ensures orphans == if batchSize == 0 then [] else Missing(index, database)
    ensures searches >= 1 && (batchSize == 0 ==> searches == 1)
    ensures batchSize > 0 ==> |index| <= (searches - 1) * batchSize < |index| + batchSize
  {
    var page := 0;
    var ids: seq<Id> := [];
    while true
      invariant ids == UpTo(index, page * batchSize)
      invariant page > 0 ==> batchSize > 0 && (page - 1) * batchSize < |index|
      decreases |index| - page * batchSize
    {
      page := page + 1;
      OnePageMore(index, page, batchSize);
      var batch := PageOf(index, page, batchSize);
      if batch == [] {
        break;
      }
      ids := ids + batch;
    }
    if page > 1 {
      OnePageMore(index, page - 1, batchSize);
    }
    orphans, searches := Missing(ids, database), page;
  }

  // ---------------------------------------------------------------------------
  // Removing them

  // A document in the index. `front` is what its document id has before the key: the id
  // prefix and the name of the record's own class. A sweep over a class also finds the
  // documents of its subclasses.
  datatype Entry = Entry(front: string, id: Id)

  function Ids(entries: seq<Entry>): (ids: seq<Id>)
    ensures |ids| == |entries| && forall i :: 0 <= i < |ids| ==> ids[i] == entries[i].id
  {
    seq(|entries|, i requires 0 <= i < |entries| => entries[i].id)
  }

  function Without(entries: seq<Entry>, gone: Entry): (r: seq<Entry>)
    ensures forall x :: x in r <==> x in entries && x != gone
  {
    if entries == [] then []
    else (if entries[0] == gone then [] else [entries[0]]) + Without(entries[1..], gone)
  }

  // Remove n records one by one, each through a stand-in that has nothing but the id;
  // `standIn` is the front of the stand-in's document id.
  function WithoutEach(entries: seq<Entry>, ids: seq<Id>, n: nat, standIn: Id -> string): seq<Entry>
    requires n <= |ids|
  {
    if n == 0 then entries
    else Without(WithoutEach(entries, ids, n - 1, standIn), Entry(standIn(ids[n - 1]), ids[n - 1]))
  }

  lemma {:induction false} WithoutEachMeans(entries: seq<Entry>, ids: seq<Id>, n: nat, standIn: Id -> string)
    requires n <= |ids|
    ensures forall x :: x in WithoutEach(entries, ids, n, standIn) <==>
              x in entries && !(x.id in ids[..n] && x.front == standIn(x.id))
  {
    if n > 0 {
      WithoutEachMeans(entries, ids, n - 1, standIn);
      assert ids[..n] == ids[..n - 1] + [ids[n - 1]];
    }
  }

  // What a sweep leaves in the index.
  function Cleaned(entries: seq<Entry>, database: set<Id>, standIn: Id -> string): seq<Entry> {
    var orphans := Missing(Ids(entries), database);
    WithoutEach(entries, orphans, |orphans|, standIn)
  }

  lemma IdsHold(entries: seq<Entry>, x: Entry)
    requires x in entries
    ensures x.id in Ids(entries)
  {
    var i :| 0 <= i < |entries| && entries[i] == x;
    assert Ids(entries)[i] == x.id;
  }

  /** What stays indexed has a record or a front that the stand-in does not get. So the
      index is clean if and only if every orphan was indexed under the prefix and the
      class name of its stand-in. */
  lemma CleanIsExact(entries: seq<Entry>, database: set<Id>, standIn: Id -> string)
    ensures var cleaned := Cleaned(entries, database, standIn);
            && (forall x :: x in cleaned <==> x in entries && (x.id in database || x.front != standIn(x.id)))
            && ((forall x :: x in cleaned ==> x.id in database) <==>
                forall x :: x in entries && x.id !in database ==> x.front == standIn(x.id))
  {
    forall x | x in entries ensures x.id in Missing(Ids(entries), database) <==> x.id !in database {
      IdsHold(entries, x);
    }
    var orphans := Missing(Ids(entries), database);
    WithoutEachMeans(entries, orphans, |orphans|, standIn);
    assert orphans[..|orphans|] == orphans;
  }

  // The orphan of a subclass is found, but stays indexed: the stand-in is an instance of
  // the class that is swept.
  lemma SubclassOrphanStays(id: Id, standIn: Id -> string)
    requires standIn(id) == "Post"
    ensures var entries := [Entry("PhotoPost", id)];
            Missing(Ids(entries), {}) == [id] && Cleaned(entries, {}, standIn) == entries
  {
    var entries := [Entry("PhotoPost", id)];
    assert Ids(entries) == [id];
    assert entries[1..] == [];
    assert entries[0] != Entry("Post", id) by {
      assert |"PhotoPost"| != |"Post"|;
    }
    assert Without(entries, Entry("Post", id)) == entries;
    assert WithoutEach(entries, [id], 1, standIn) == Without(WithoutEach(entries, [id], 0, standIn), Entry("Post", id));
  }

  // `solr_clean_index_orphans`
  method CleanIndexOrphans(entries: seq<Entry>, database: set<Id>, standIn: Id -> string, batchSize: nat)
    returns (cleaned: seq<Entry>)
    ensures cleaned == if batchSize == 0 then entries else Cleaned(entries, database, standIn)
    ensures batchSize > 0 ==>
              ((forall x :: x in cleaned ==> x.id in database) <==>
               forall x :: x in entries && x.id !in database ==> x.front == standIn(x.id))
  {
    var orphans, _ := IndexOrphans(Ids(entries), database, batchSize);
    cleaned := entries;
    for i := 0 to |orphans|
      invariant cleaned == WithoutEach(entries, orphans, i, standIn)
    {
      cleaned := Without(cleaned, Entry(standIn(orphans[i]), orphans[i]));
    }
    CleanIsExact(entries, database, standIn);
  }
}
