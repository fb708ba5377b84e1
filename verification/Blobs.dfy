/** The add, cat and remove operations over a storage with fresh ids, as an object. */
module Blobs {
  import opened Tree
  import opened Insertion
  import opened Codec
  import opened Storage
  import opened Database

  class BlobStore {
    const config: Config
    var blobs: map<nat, Blob>
    var next: nat
    var credit: nat
    ghost var cats: nat

    constructor (config: Config)
      ensures this.config == config && State() == Store(map[], 0, 0)
    {
      this.config := config;
      blobs, next, credit, cats := map[], 0, 0, 0;
    }

    method CatOp(h: nat) returns (found: bool, blob: Blob)
      modifies this`cats
      ensures cats == old(cats) + 1
      ensures found <==> h in blobs
      ensures found ==> blob == blobs[h]
    {
      cats := cats + 1;
      found := h in blobs;
      blob := if found then blobs[h] else [];
    }

    function State(): Store
      reads this
    {
      Store(blobs, next, credit)
    }

    method AddOp(blob: Blob) returns (h: Hash)
      modifies this
      ensures (State(), h) == Add(old(State()), blob)
    {
      if credit == 0 {
        return NoHash;
      }
      h := Id(next);
      blobs := blobs[next := blob];
      next, credit := next + 1, credit - 1;
    }

    /** BTree::try_remove; the caller clears its hash. */
    method TryRemove(h: Hash)
      modifies this`blobs
      ensures State() == Database.TryRemove(config, old(State()), HashBag(h))
    {
      if h.Id? && config.canRemove {
        blobs := blobs - {h.n};
        assert (set x | x in HashBag(h)) == {h.n};
      } else {
        assert h.NoHash? ==> (set x | x in HashBag(h)) == {};
      }
    }
  }

  lemma {:induction false} RemoveTwice(c: Config, s: Store, a: multiset<nat>, b: multiset<nat>)
    ensures Database.TryRemove(c, Database.TryRemove(c, s, a), b) == Database.TryRemove(c, s, a + b)
  {
    assert (s.blobs - set h | h in a) - (set h | h in b) == s.blobs - set h | h in a + b;
  }
}
