/**
 Saving all stores to the snapshot file and loading them back. The file is a
 value: encoding and the file system are not modelled.
 */
module Persistence {
  import opened OrderedEntries
  import opened TreeIndex
  import opened BTreeScan
  import opened BTreeIndex
  import opened ShardModel
  import opened Ids
  import opened DocumentModel
  import opened Documents

  type Snapshot = map<string, StoreSnapshot>

  /** What a save writes for stores with the given documents. */
  function Saved(v: map<string, Store>): Snapshot {
    map n | n in v && Listed(n) :: Exported(v[n])
  }

  /** What a load makes of the file. */
  function Loaded(s: Snapshot): map<string, Store> {
    map n | n in s :: Restored(s[n])
  }

  /**
   Saving and loading gives every store back, with all documents and metadata, exactly when no
   name or id extends the sentinel.
   */
  lemma SaveThenLoad(v: map<string, Store>)
    ensures Loaded(Saved(v)) == v <==> Exportable(v) && forall n :: n in v ==> Exportable(v[n])
  {
    var r := Loaded(Saved(v));
    forall n | n in v
      ensures n in r <==> !(MaxKey() < n)
      ensures n in r ==> (r[n] == v[n] <==> Exportable(v[n]))
    {
      PastSentinel(n);
      ExportThenRestore(v[n]);
    }
    if r == v {
      assert forall n :: n in v ==> n in r && r[n] == v[n];
    }
  }

  /** A store that no snapshot keeps, whatever it holds. */
  lemma LostStore(m: Store)
    ensures var name := MaxKey() + "a"; Loaded(Saved(map[name := m])) == map[]
  {
    PastSentinel(MaxKey() + "a");
  }

  class Server {
    const databases: BTree<string, Database>
    var snapshotPath: string
    var file: Option<Snapshot>

    ghost var stores: map<string, Database>

    ghost predicate Valid()
      reads `stores, databases, databases.root, if databases.root == null then {} else databases.root.repr
      reads set n | n in stores :: stores[n].docs
      reads set n | n in stores :: stores[n].docs.root
      reads set n, o | n in stores && stores[n].docs.root != null && o in stores[n].docs.root.repr :: o
    {
      && databases.Valid() && databases.lt == Before && databases.Map() == stores
      && forall n :: n in stores ==> stores[n].Valid()
    }

    /** The documents of every store. */
    ghost function View(): map<string, Store>
      reads `stores
      reads set n | n in stores :: stores[n].docs
      reads set n | n in stores :: stores[n].docs.root
    {
      map n | n in stores :: stores[n].Docs()
    }

    constructor (path: string, file: Option<Snapshot>)
      ensures Valid() && View() == map[] && snapshotPath == path && this.file == file
      ensures fresh(this) && fresh(databases)
    {
      BeforeIsTotalOrder();
      snapshotPath, this.file := path, file;
      databases := new BTree(Before);
      stores := map[];
    }

    /** Writes a snapshot of every store; does nothing without a path. */
    method SaveSnapshot()
      requires Valid()
      modifies `file
      ensures Valid() && View() == old(View())
      ensures file == if snapshotPath == "" then old(file) else Some(Saved(old(View())))
    {
      hide Server.Valid, Server.View, Saved;
      if snapshotPath == "" {
        return;
      }
      var snap := ExportStores();
      file := Some(snap);
    }

    method ExportStores() returns (snap: Snapshot)
      requires Valid()
      ensures snap == Saved(View())
    {
      hide TotalOrder, Sorted, Good, Contents, Listing, Between, Before, Exported, Listed;
      hide BTree.Valid, BTree.Map, Database.Valid, Database.Docs;
      ghost var dbs, want := stores, Saved(View());
      var pairs := databases.Query("", MaxKey(), _ => false);
      forall e: (string, Database)
        ensures e in pairs <==> e.0 in dbs && dbs[e.0] == e.1 && Listed(e.0)
      {
        StoreListed(databases, e);
      }
      snap := ExportPairs(pairs, want);
      forall n | n in want
        ensures n in snap
      {
        assert (n, dbs[n]) in pairs;
      }
    }

    /** Adds the stores of the file, each one replacing a store of its name; a missing file adds none. */
    method LoadSnapshot()
      requires Valid()
      modifies databases, `stores
      ensures Valid()
      ensures View() == old(View()) + if snapshotPath == "" || file == None then map[] else Loaded(file.value)
    {
      hide Server.Valid, Server.View, Restored;
      assert old(View()) + map[] == old(View());
      if snapshotPath == "" || file == None {
        return;
      }
      var snap := file.value;
      var left := snap.Keys;
      while left != {}
        invariant left <= snap.Keys && Valid()
        invariant View() == old(View()) + LoadedFrom(snap, left)
      {
        var name :| name in left;
        AddStore(name, snap[name]);
        LoadOne(old(View()), snap, left, name);
        left := left - {name};
      }
      assert LoadedFrom(snap, {}) == Loaded(snap);
    }

    method AddStore(name: string, store: StoreSnapshot)
      requires Valid()
      modifies databases, `stores
      ensures Valid() && View() == old(View())[name := Restored(store)]
    {
      hide TotalOrder, Sorted, Good, Contents, Listing, Between, Before, Upserted, Restored, BTree.Valid, BTree.Map;
      ghost var was, view := stores, View();
      var newDb := Import(name, store);
      var updated, err := databases.Upsert<WriteError>(name, (key, curr) => Verdict.Store(newDb));
      stores := stores[name := newDb];
      StoreAdded(was, view, name, newDb);
    }

    lemma StoreAdded(was: map<string, Database>, view: map<string, Store>, name: string, db: Database)
      requires databases.Valid() && databases.lt == Before && databases.Map() == stores == was[name := db]
      requires was.Keys == view.Keys && forall n :: n in was ==> was[n].Valid() && was[n].Docs() == view[n]
      requires db.Valid()
      ensures Valid() && View() == view[name := db.Docs()]
    {
      hide Database.Valid, Database.Docs, BTree.Valid, BTree.Map, Before;
    }
  }

  /** The stores of a file that are not among those `left`. */
  ghost function LoadedFrom(snap: Snapshot, left: set<string>): map<string, Store> {
    map n | n in snap && n !in left :: Restored(snap[n])
  }

  lemma LoadOne(v: map<string, Store>, snap: Snapshot, left: set<string>, name: string)
    requires name in left && left <= snap.Keys
    ensures (v + LoadedFrom(snap, left))[name := Restored(snap[name])] == v + LoadedFrom(snap, left - {name})
  {
    hide Restored;
  }

  /** The loop that exports the listed stores one after the other. */
  method ExportPairs(pairs: seq<(string, Database)>, ghost want: Snapshot) returns (snap: Snapshot)
    requires forall e :: e in pairs ==> e.1.Valid() && e.0 in want && want[e.0] == Exported(e.1.Docs())
    ensures forall n :: n in snap ==> n in want && snap[n] == want[n]
    ensures forall e :: e in pairs ==> e.0 in snap
  {
    hide Exported, Database.Valid, Database.Docs;
    snap := map[];
    for i := 0 to |pairs|
      invariant forall e :: e in pairs ==> e.1.Valid() && want[e.0] == Exported(e.1.Docs())
      invariant forall j :: 0 <= j < i ==> pairs[j].0 in snap
      invariant forall n :: n in snap ==> n in want && snap[n] == want[n]
    {
      assert pairs[i] in pairs;
      var store := pairs[i].1.ExportSnapshot();
      snap := snap[pairs[i].0 := store];
    }
  }

  method Import(name: string, store: StoreSnapshot) returns (db: Database)
    ensures fresh(db) && fresh(db.docs) && db.Valid() && db.Docs() == Restored(store)
  {
    hide Restored;
    db := new Database(name);
    db.ImportSnapshot(store);
    assert map[] + Restored(store) == Restored(store);
  }

  lemma StoreListed(index: BTree<string, Database>, e: (string, Database))
    requires index.Valid() && index.lt == Before
    ensures e in InRange(Before, "", MaxKey(), Listing(index.Value())) <==>
      e.0 in index.Map() && index.Map()[e.0] == e.1 && Listed(e.0)
  {
    hide Between, Contents, Listing, Good;
    InRangeMember(Before, index.t, "", MaxKey(), index.Value(), e);
    assert |MaxKey()| == 2000;
  }
}
