/**
 Documents and their metadata as values: what a write, a refused write and a
 delete do to a store, what every interleaving of them leaves in the metadata,
 and the snapshot form of a store.
 */
module DocumentModel {
  import opened Ids
  import opened OrderedEntries

  datatype Metadata = Metadata(createdBy: string, createdAt: int, lastModifiedBy: string, lastModifiedAt: int)

  datatype Document = Document(metadata: Metadata, data: string)

  type Store = map<string, Document>

  datatype WriteError = EmptyId | DocumentExists

  // ---------- requests ----------

  /** `created` and `modified` are the clock readings of the call; an overwrite takes only the second. */
  datatype Request =
    | Put(user: string, id: string, data: string, overwrite: bool, created: int, modified: int)
    | Delete(id: string)

  function NewDocument(r: Request): Document
    requires r.Put?
  {
    Document(Metadata(r.user, r.created, r.user, r.modified), r.data)
  }

  function Overwritten(d: Document, r: Request): Document
    requires r.Put?
  {
    Document(Metadata(d.metadata.createdBy, d.metadata.createdAt, r.user, r.modified), r.data)
  }

  /** One request takes effect as one step: it runs under the writer lock of the index. */
  function Applied(m: Store, r: Request): Store {
    match r
    case Delete(id) => m - {id}
    case Put(_, id, _, overwrite, _, _) =>
      if id == "" then m
      else if id !in m then m[id := NewDocument(r)]
      else if overwrite then m[id := Overwritten(m[id], r)]
      else m
  }

  /** The store after the requests in the order in which they got the lock, starting with what was loaded. */
  function History(m0: Store, rs: seq<Request>): Store {
    if rs == [] then m0 else Applied(History(m0, rs[..|rs| - 1]), rs[|rs| - 1])
  }

  ghost predicate Deleted(rs: seq<Request>, id: string, from: int, to: int) {
    exists d :: from < d < to && 0 <= d < |rs| && rs[d] == Delete(id)
  }

  predicate Writes(rs: seq<Request>, id: string, j: nat) {
    j < |rs| && rs[j].Put? && rs[j].id == id
  }

  /**
   Request `c` created the incarnation of `id` that still exists: no delete follows, and one
   separates it from anything before.
   */
  ghost predicate Creates(m0: Store, rs: seq<Request>, id: string, c: nat) {
    && Writes(rs, id, c) && !Deleted(rs, id, c, |rs|)
    && (id in m0 ==> Deleted(rs, id, -1, c))
    && (forall j: nat :: j < c && Writes(rs, id, j) ==> Deleted(rs, id, j, c))
  }

  /** The loaded incarnation of `id` still exists. */
  ghost predicate Survives(m0: Store, rs: seq<Request>, id: string) {
    id in m0 && !Deleted(rs, id, -1, |rs|)
  }

  /** Request `w` is the last write at or after `from` that was not refused. */
  ghost predicate LastOverwrite(rs: seq<Request>, id: string, from: int, w: nat) {
    && from < w && Writes(rs, id, w) && rs[w].overwrite
    && (forall j: nat :: w < j && Writes(rs, id, j) ==> !rs[j].overwrite)
  }

  ghost predicate NoOverwrite(rs: seq<Request>, id: string, from: int) {
    forall j: nat :: from < j && Writes(rs, id, j) ==> !rs[j].overwrite
  }

  /** An explanation of `id`: where its incarnation began (-1 if it was loaded) and its last overwrite. */
  ghost predicate Explains(m0: Store, rs: seq<Request>, id: string, c: int, w: Option<nat>) {
    && id in History(m0, rs) && -1 <= c < |rs|
    && (if c < 0 then Survives(m0, rs, id) else Creates(m0, rs, id, c))
    && (match w
        case None => NoOverwrite(rs, id, c)
        case Some(j) => LastOverwrite(rs, id, c, j))
    && (var d := History(m0, rs)[id];
        && d.metadata.createdBy == (if c < 0 then m0[id].metadata.createdBy else rs[c].user)
        && d.metadata.createdAt == (if c < 0 then m0[id].metadata.createdAt else rs[c].created)
        && (match w
            case Some(j) =>
              && d.metadata.lastModifiedBy == rs[j].user
              && d.metadata.lastModifiedAt == rs[j].modified
              && d.data == rs[j].data
            case None =>
              if c < 0 then
                && d.metadata.lastModifiedBy == m0[id].metadata.lastModifiedBy
                && d.metadata.lastModifiedAt == m0[id].metadata.lastModifiedAt
                && d.data == m0[id].data
              else
                && d.metadata.lastModifiedBy == rs[c].user
                && d.metadata.lastModifiedAt == rs[c].modified
                && d.data == rs[c].data))
  }

  /**
   In every interleaving, from any loaded store, a document that exists carries the creation fields it
   was loaded with or those of the write that created it, and the update fields and data of its last
   overwrite, or those it began with when there is none.
   */
  lemma {:induction false} MetadataHistory(m0: Store, rs: seq<Request>, id: string) returns (c: int, w: Option<nat>)
    requires id != ""
    ensures id in History(m0, rs) ==> Explains(m0, rs, id, c, w)
  {
    c, w := -1, None;
    if rs == [] || id !in History(m0, rs) {
      return;
    }
    var n := |rs| - 1;
    var before, r := rs[..n], rs[n];
    if id !in History(m0, before) {
      Absent(m0, before, id);
      c := n;
    } else {
      c, w := MetadataHistory(m0, before, id);
      if r.Put? && r.id == id && r.overwrite { w := Some(n); }
    }
    Extended(rs, id);
  }

  /** What a longer sequence says about the earlier requests. */
  lemma Extended(rs: seq<Request>, id: string)
    requires rs != []
    ensures var before := rs[..|rs| - 1];
      && (forall j: nat :: j < |before| ==> Writes(before, id, j) == Writes(rs, id, j) && before[j] == rs[j])
      && (forall a: int, b: int :: b <= |before| ==> Deleted(before, id, a, b) == Deleted(rs, id, a, b))
  {
    var before := rs[..|rs| - 1];
    assert forall j: nat :: j < |before| ==> before[j] == rs[j];
    forall a: int, b: int | b <= |before|
      ensures Deleted(before, id, a, b) == Deleted(rs, id, a, b)
    {
      if Deleted(rs, id, a, b) {
        var d :| a < d < b && 0 <= d < |rs| && rs[d] == Delete(id);
        assert before[d] == Delete(id);
      }
      if Deleted(before, id, a, b) {
        var d :| a < d < b && 0 <= d < |before| && before[d] == Delete(id);
        assert rs[d] == Delete(id);
      }
    }
  }

  /** An absent id was deleted after it was loaded and after each of its writes. */
  lemma {:induction false} Absent(m0: Store, rs: seq<Request>, id: string)
    requires id !in History(m0, rs) && id != ""
    ensures id in m0 ==> Deleted(rs, id, -1, |rs|)
    ensures forall j: nat :: Writes(rs, id, j) ==> Deleted(rs, id, j, |rs|)
  {
    if rs != [] {
      var n := |rs| - 1;
      Extended(rs, id);
      if rs[n] != Delete(id) {
        Absent(m0, rs[..n], id);
      }
    }
  }

  /**
   A document exists exactly when its loaded incarnation was never deleted or one of its writes
   has no delete after it.
   */
  lemma ExistsIffCreated(m0: Store, rs: seq<Request>, id: string)
    requires id != ""
    ensures id in History(m0, rs) <==> Survives(m0, rs, id) || exists c: nat :: Creates(m0, rs, id, c)
  {
    if id in History(m0, rs) {
      var c, w := MetadataHistory(m0, rs, id);
    } else {
      Absent(m0, rs, id);
    }
  }

  /** The empty id can only have been loaded: no request creates or changes it, a delete removes it. */
  lemma {:induction false} EmptyIdUntouched(m0: Store, rs: seq<Request>)
    ensures "" in History(m0, rs) <==> Survives(m0, rs, "")
    ensures "" in History(m0, rs) ==> History(m0, rs)[""] == m0[""]
  {
    if rs != [] {
      var n := |rs| - 1;
      EmptyIdUntouched(m0, rs[..n]);
      Extended(rs, "");
      assert rs[n] == Delete("") ==> Deleted(rs, "", -1, |rs|);
    }
  }

  // ---------- snapshots ----------

  datatype MetadataSnapshot = MetadataSnapshot(createdBy: string, createdAt: int, updatedBy: string, updatedAt: int)

  datatype DocumentSnapshot = DocumentSnapshot(data: string, metadata: MetadataSnapshot)

  type StoreSnapshot = map<string, DocumentSnapshot>

  function ToSnapshot(d: Document): DocumentSnapshot {
    DocumentSnapshot(
      d.data,
      MetadataSnapshot(
        d.metadata.createdBy, d.metadata.createdAt,
        d.metadata.lastModifiedBy, d.metadata.lastModifiedAt))
  }

  function FromSnapshot(s: DocumentSnapshot): Document {
    Document(
      Metadata(s.metadata.createdBy, s.metadata.createdAt, s.metadata.updatedBy, s.metadata.updatedAt),
      s.data)
  }

  /** Which field of the snapshot form holds which field of the document, both ways. */
  lemma SnapshotFields(d: Document, s: DocumentSnapshot)
    ensures s == ToSnapshot(d) <==>
      && s.data == d.data
      && s.metadata.createdBy == d.metadata.createdBy
      && s.metadata.createdAt == d.metadata.createdAt
      && s.metadata.updatedBy == d.metadata.lastModifiedBy
      && s.metadata.updatedAt == d.metadata.lastModifiedAt
    ensures s == ToSnapshot(d) <==> d == FromSnapshot(s)
  {
  }

  /** Every document up to the sentinel. */
  function Exported(m: Store): StoreSnapshot {
    map id | id in m && Listed(id) :: ToSnapshot(m[id])
  }

  function Restored(s: StoreSnapshot): Store {
    map id | id in s :: FromSnapshot(s[id])
  }

  /** The snapshot form of the given documents. */
  function Snapshots(m: Store): StoreSnapshot {
    map id | id in m :: ToSnapshot(m[id])
  }

  /** What can be exported: all ids except those that extend the sentinel. */
  ghost predicate Exportable<V>(m: map<string, V>) {
    forall id :: id in m ==> !(MaxKey() < id)
  }

  /** Exporting and restoring gives every document and all its metadata back exactly when no id extends the sentinel. */
  lemma ExportThenRestore(m: Store)
    ensures Restored(Exported(m)) == map id | id in m && Listed(id) :: m[id]
    ensures Restored(Exported(m)) == m <==> Exportable(m)
  {
    var r := Restored(Exported(m));
    assert forall id :: id in m && id in r ==> r[id] == m[id];
    forall id | id in m
      ensures id in r <==> !(MaxKey() < id)
    {
      PastSentinel(id);
    }
    if r == m {
      assert forall id :: id in m ==> id in r;
    }
  }

  /** A document that no snapshot keeps: its id extends the sentinel. */
  lemma LostId(d: Document)
    ensures var id := MaxKey() + "a"; Exported(map[id := d]) == map[] && Restored(Exported(map[id := d])) == map[]
  {
    PastSentinel(MaxKey() + "a");
  }
}
