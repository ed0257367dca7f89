/**
 The document layer: a store is an index from ids to documents, and every call
 does to its map what `DocumentModel` says.
 */
module Documents {
  import opened OrderedEntries
  import opened TreeIndex
  import opened BTreeScan
  import opened BTreeIndex
  import opened ShardModel
  import opened Ids
  import opened DocumentModel

  datatype DocumentEntry = DocumentEntry(id: string, document: Document)

  class Database {
    const name: string
    const docs: BTree<string, Document>

    ghost predicate Valid()
      reads docs, docs.root, if docs.root == null then {} else docs.root.repr
    {
      docs.Valid() && docs.lt == Before
    }

    ghost function Docs(): Store
      reads docs, docs.root
    {
      docs.Map()
    }

    constructor (name: string)
      ensures Valid() && Docs() == map[] && this.name == name && fresh(this) && fresh(docs)
    {
      BeforeIsTotalOrder();
      this.name := name;
      docs := new BTree(Before);
    }

    /** (false, nil) for a refused overwrite, an error for an empty id. */
    method WriteDocument(user: string, id: string, data: string, overwrite: bool, created: int, modified: int)
      returns (updated: bool, err: Option<WriteError>)
      requires Valid()
      modifies docs
      ensures Valid() && Docs() == Applied(old(Docs()), Put(user, id, data, overwrite, created, modified))
      ensures updated == (id != "" && (id in old(Docs()) ==> overwrite))
      ensures err == if id == "" then Some(EmptyId) else None
      ensures !updated ==> unchanged(docs)
      ensures updated && id !in old(Docs()) ==>
        id in Docs() && Docs()[id] == Document(Metadata(user, created, user, modified), data)
      ensures updated && id in old(Docs()) ==>
        id in Docs() && var md := old(Docs())[id].metadata;
        Docs()[id] == Document(Metadata(md.createdBy, md.createdAt, user, modified), data)
    {
      hide TotalOrder, Sorted, Good, Contents, Listing, Upserted, Removed, BTree.Valid, BTree.Map;
      if id == "" {
        return false, Some(EmptyId);
      }
      var r := Put(user, id, data, overwrite, created, modified);
      updated, err := docs.Upsert(id, (key, curr) => Decide(r, curr));
    }

    method ReadDocument(id: string) returns (r: Option<Document>)
      requires Valid()
      ensures r == Get(Docs(), id)
    {
      var doc, _ := docs.Find(id);
      r := doc;
    }

    /** The documents with start <= id <= end in id order; a cancelled listing stops early. */
    method ListDocuments(start: string, end: string, cancelled: nat -> bool) returns (entries: seq<DocumentEntry>)
      requires Valid()
      ensures IsListing(Docs(), start, end, entries)
      ensures (forall j :: !cancelled(j)) ==>
        forall id :: id in Docs() && Asked(start, end, id) ==> DocumentEntry(id, Docs()[id]) in entries
    {
      hide TotalOrder, Good, Contents, Listing, Upserted, Removed, Between, Before, IsListing, Asked;
      var pairs := docs.Query(start, end, cancelled);
      entries := [];
      for i := 0 to |pairs|
        invariant |entries| == i
        invariant forall j :: 0 <= j < i ==> entries[j] == DocumentEntry(pairs[j].0, pairs[j].1)
      {
        entries := entries + [DocumentEntry(pairs[i].0, pairs[i].1)];
      }
      ListingFacts(docs.t, docs.Value(), start, end, pairs, entries);
    }

    /** False when there is no such document. */
    method DeleteDocument(id: string) returns (deleted: bool)
      requires Valid()
      modifies docs
      ensures Valid() && Docs() == Applied(old(Docs()), Delete(id))
      ensures deleted == (id in old(Docs()))
      ensures !deleted ==> unchanged(docs)
    {
      var was := docs.Remove(id);
      deleted := was != None;
    }

    /** Lists every id up to the sentinel and fills a map with the results. */
    method ExportSnapshot() returns (s: StoreSnapshot)
      requires Valid()
      ensures s == Exported(Docs())
    {
      hide TotalOrder, Sorted, Good, Listing, Upserted, Removed, Between, Before, Contents;
      var pairs := docs.Query("", MaxKey(), _ => false);
      QueryMeaning(Before, docs.t, docs.Value(), "", MaxKey());
      s := map[];
      SnapshotsSoFar(pairs, 0);
      for i := 0 to |pairs|
        invariant s == Snapshots(Contents(pairs[..i]))
      {
        SnapshotsSoFar(pairs, i + 1);
        s := s[pairs[i].0 := ToSnapshot(pairs[i].1)];
      }
      assert pairs[..|pairs|] == pairs;
      UpToSentinel(Docs());
    }

    /** Upserts the documents of the snapshot, in whatever order the map yields them. */
    method ImportSnapshot(s: StoreSnapshot)
      requires Valid()
      modifies docs
      ensures Valid() && Docs() == old(Docs()) + Restored(s)
    {
      hide TotalOrder, Sorted, Good, Contents, Listing, Upserted, Removed, BTree.Valid, BTree.Map;
      var left := s.Keys;
      while left != {}
        invariant left <= s.Keys && Valid()
        invariant Docs() == old(Docs()) + (map id | id in s && id !in left :: FromSnapshot(s[id]))
      {
        var id :| id in left;
        var doc := FromSnapshot(s[id]);
        var _, _ := docs.Upsert<WriteError>(id, (key, curr) => Verdict.Store(doc));
        left := left - {id};
      }
    }
  }

  /** The check that WriteDocument passes to Upsert. */
  function Decide(r: Request, curr: Option<Document>): Verdict<Document, WriteError>
    requires r.Put?
  {
    match curr
    case None => Verdict.Store(NewDocument(r))
    case Some(d) => if r.overwrite then Verdict.Store(Overwritten(d, r)) else Refuse(DocumentExists)
  }

  /** The ids a listing is asked for; equal bounds ask for the whole store. */
  predicate Asked(start: string, end: string, id: string) {
    start == end || (!Before(id, start) && !Before(end, id))
  }

  /** Documents of the store that were asked for, in ascending id order, without a gap before the last of them. */
  ghost predicate IsListing(m: Store, start: string, end: string, entries: seq<DocumentEntry>) {
    && (forall i, j :: 0 <= i < j < |entries| ==> Before(entries[i].id, entries[j].id))
    && (forall e :: e in entries ==> Binds(m, e.id, e.document) && Asked(start, end, e.id))
    && (forall e, id :: e in entries && id in m && Asked(start, end, id) && Before(id, e.id) ==>
          DocumentEntry(id, m[id]) in entries)
  }

  /** A prefix of the index's answer, entry by entry, is a listing, and the whole answer is a complete one. */
  lemma ListingFacts(t: nat, x: Index<string, Document>, start: string, end: string,
                     pairs: seq<(string, Document)>, entries: seq<DocumentEntry>)
    requires Good(Before, t, x) && pairs <= InRange(Before, start, end, Listing(x))
    requires |entries| == |pairs|
    requires forall j :: 0 <= j < |pairs| ==> entries[j] == DocumentEntry(pairs[j].0, pairs[j].1)
    ensures IsListing(MapOf(x), start, end, entries)
    ensures pairs == InRange(Before, start, end, Listing(x)) ==>
      forall id :: id in MapOf(x) && Asked(start, end, id) ==> DocumentEntry(id, MapOf(x)[id]) in entries
  {
    hide Contents, Listing, Between, Before, TotalOrder, InRange, MapOf, Good;
    var all, m := InRange(Before, start, end, Listing(x)), MapOf(x);
    QueryMeaning(Before, t, x, start, end);
    assert forall i :: 0 <= i < |pairs| ==> pairs[i] == all[i];
    forall id, d
      ensures (id, d) in all <==> Binds(m, id, d) && Asked(start, end, id)
    {
      InRangeMember(Before, t, start, end, x, (id, d));
    }
    forall e | e in entries
      ensures Binds(m, e.id, e.document) && Asked(start, end, e.id)
    {
      assert (e.id, e.document) in all;
    }
    forall e, id | e in entries && id in m && Asked(start, end, id) && Before(id, e.id)
      ensures DocumentEntry(id, m[id]) in entries
    {
      assert (id, m[id]) in all;
      var i :| 0 <= i < |all| && all[i] == (id, m[id]);
      var j :| 0 <= j < |entries| && entries[j] == e;
      EarlierFirst(all, i, j);
      assert entries[i] == DocumentEntry(id, m[id]);
    }
    if pairs == all {
      forall id | id in m && Asked(start, end, id)
        ensures DocumentEntry(id, m[id]) in entries
      {
        assert (id, m[id]) in all;
        var i :| 0 <= i < |all| && all[i] == (id, m[id]);
        assert entries[i] == DocumentEntry(id, m[id]);
      }
    }
  }

  /** In a sorted listing the entry with the earlier key comes first. */
  lemma EarlierFirst(all: seq<(string, Document)>, i: nat, j: nat)
    requires i < |all| && j < |all| && Sorted(Before, all) && Before(all[i].0, all[j].0)
    ensures i < j
  {
    BeforeIsTotalOrder();
  }

  lemma SnapshotsSoFar(pairs: seq<(string, Document)>, i: nat)
    requires i <= |pairs|
    ensures Snapshots(Contents(pairs[..i])) ==
      if i == 0 then map[]
      else Snapshots(Contents(pairs[..i - 1]))[pairs[i - 1].0 := ToSnapshot(pairs[i - 1].1)]
  {
    if i > 0 { assert pairs[..i][..i - 1] == pairs[..i - 1]; }
  }

  /** An open-ended query lists the ids up to the sentinel. */
  lemma UpToSentinel(m: Store)
    ensures Snapshots(Restrict(Before, m, LowEnd("", MaxKey()), HighEnd("", MaxKey()))) == Exported(m)
  {
    assert |MaxKey()| == 2000;
  }
}
