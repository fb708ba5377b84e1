/** ClientDb: a tree without add and remove operations that is loaded from root hashes and queried. */
module ClientDbObject {
  import opened OrderedMap
  import opened Tree
  import opened LazyFind
  import opened Nodes

  class ClientDatabase {
    const dbMap: BTree

    constructor (dbMap: BTree)
      ensures this.dbMap == dbMap
    {
      this.dbMap := dbMap;
    }

    /** Everything below the root hash is stored, and in order. */
    ghost predicate Published(h: Hash)
      reads dbMap.store
    {
      h.Id? && HashOk(dbMap.store.blobs, h.n) && Sorted(HashView(dbMap.store.blobs, h.n))
    }

    /** Nothing is being inserted, and if a published root is loaded, then whatever part of it is
        resident, the tree stands for what is stored under that root. */
    ghost predicate Valid()
      reads dbMap, dbMap.RootSet(), dbMap.NodeSet(), dbMap.Repr(), dbMap.store
    {
      && dbMap.Valid() && dbMap.insertBuffer == []
      && !dbMap.store.config.canRemove && Storage.Acyclic(dbMap.store.blobs)
      && (Published(dbMap.RootHash()) ==>
            && LinkOk(dbMap.RootLink(), dbMap.store.blobs)
            && LinkView(dbMap.RootLink(), dbMap.store.blobs) == HashView(dbMap.store.blobs, dbMap.RootHash().n))
    }

    /** One round of continuously_download_db, or load_db. */
    method Download(root: Hash)
      requires Valid()
      modifies dbMap`root, dbMap`insertBuffer, dbMap.RootSet()`hash, dbMap.store`blobs
      ensures Valid() && dbMap.RootHash() == root && dbMap.store.blobs == old(dbMap.store.blobs)
      ensures fresh(dbMap.RootSet() - old(dbMap.RootSet())) && dbMap.Repr() <= old(dbMap.Repr())
    {
      dbMap.Load(root);
    }

    /** ClientDb::query. Other roots may be downloaded while it waits. */
    method Query(key: string) returns (a: Answer)
      requires Valid()
      modifies dbMap`root, dbMap`insertBuffer, dbMap`schedule, dbMap.RootSet()
      modifies dbMap.Repr(), dbMap.store`blobs, dbMap.store`cats
      ensures Valid() && dbMap.store.blobs == old(dbMap.store.blobs)
      ensures old(Published(dbMap.RootHash())) ==>
        a == Lookup(HashView(dbMap.store.blobs, old(dbMap.RootHash()).n), key)
    {
      ghost var h, b := dbMap.RootHash(), dbMap.store.blobs;
      a := dbMap.Find(key);
      assert Published(dbMap.RootHash()) && dbMap.root.node == null ==>
          dbMap.RootLink() == Entry(Keys.Inf, "", Nil, dbMap.RootHash());
    }

    /** What is published is what is found: a root downloaded and then queried. */
    method DownloadAndQuery(root: Hash, key: string) returns (a: Answer)
      requires Valid()
      modifies dbMap`root, dbMap`insertBuffer, dbMap`schedule, dbMap.RootSet()
      modifies dbMap.Repr(), dbMap.store`blobs, dbMap.store`cats
      ensures Valid()
      ensures Published(root) ==> a == Lookup(HashView(dbMap.store.blobs, root.n), key)
    {
      Download(root);
      a := Query(key);
    }
  }
}
