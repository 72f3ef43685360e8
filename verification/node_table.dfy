/** One field's unique table as hash buckets that refine a map from edge content to node. */
module NodeTables {
  import opened Labels
  import opened Fractions
  import opened Diagram
  import opened Buckets

  const MIN_BUCKETS: nat := 16

  class NodeTable {
    /** The content hash that edge maps carry. */
    const hash: Hash<Edges>
    var buckets: seq<seq<(Edges, Id)>>
    var count: nat
    var threshold: nat
    ghost var contents: map<Edges, Id>

    ghost predicate Sound()
      reads this
    {
      Holds(hash, buckets, contents) && count == |contents| && |buckets| >= MIN_BUCKETS
    }

    /** Sound, and less than three quarters full. */
    ghost predicate Valid()
      reads this
    {
      Sound() && count < threshold == |buckets| - |buckets| / 4
    }

    constructor (hash: Hash<Edges>, size: nat)
      ensures Valid() && contents == map[] && this.hash == hash
    {
      var k := LogCeil(if size < MIN_BUCKETS then MIN_BUCKETS else size);
      this.hash := hash;
      buckets, count, threshold := seq(Pow2(k), _ => []), 0, Pow2(k) - Pow2(k) / 4;
      contents := map[];
      new;
      HoldsNothing(hash, k, buckets);
    }

    method Find(e: Edges) returns (r: Option<Id>)
      requires Valid()
      ensures r == if e in contents then Some(contents[e]) else None
    {
      r := Lookup(hash, buckets, contents, e);
    }

    /** Look again under the lock; link the new node only if the content is still missing. */
    method FindOrLink(e: Edges, id: Id) returns (r: Id)
      requires Valid()
      modifies this
      ensures Valid() && e in contents && r == contents[e]
      ensures contents == if e in old(contents) then old(contents) else old(contents)[e := id]
    {
      var i, j := Locate(hash, buckets, contents, e);
      if j < |buckets[i]| {
        r := buckets[i][j].1;
      } else {
        HoldsPut(hash, buckets, contents, e, id, i);
        buckets := buckets[i := [(e, id)] + buckets[i]];
        contents := contents[e := id];
        count := count + 1;
        if count >= threshold {
          Rehash(2 * |buckets|);
        }
        r := id;
      }
    }

    method Rehash(size: nat)
      requires Sound()
      modifies this`buckets, this`threshold
      ensures Sound() && |buckets| >= size && threshold == |buckets| - |buckets| / 4
    {
      var k := LogCeil(if size < MIN_BUCKETS then MIN_BUCKETS else size);
      buckets := Respread(hash, buckets, contents, k);
      threshold := |buckets| - |buckets| / 4;
    }

    /** Unlink the entry at position j of bucket i, as the sweep does. */
    method Release(i: nat, j: nat)
      requires Valid() && i < |buckets| && j < |buckets[i]|
      modifies this`buckets, this`count, this`contents
      ensures Valid() && contents == old(contents) - {old(buckets[i][j].0)}
    {
      var e := buckets[i][j].0;
      EntryIs(hash, buckets, contents, i, j);
      HoldsRemove(hash, buckets, contents, e, i, j);
      buckets := buckets[i := buckets[i][..j] + buckets[i][j + 1..]];
      assert (contents - {e}).Keys == contents.Keys - {e};
      contents := contents - {e};
      count := count - 1;
    }
  }
}
