/** The edge map: hash buckets that refine a map from child to label, with an order-independent
    hash of its content. */
module EdgeMaps {
  import opened Labels
  import opened Diagram
  import opened EdgeAlgebra
  import opened Buckets
  import opened Fractions

  const DEFAULT_EDGE_BUCKET_COUNT: nat := 8

  type Chain = seq<(Id, Label)>
  type Mix = (Id, Label) -> nat

  // ---------------------------------------------------------------- content hash

  /** Entries combined from left to right. */
  ghost function XorSeq(mix: Mix, l: Chain): nat {
    if l == [] then 0 else Xor(mix(l[0].0, l[0].1), XorSeq(mix, l[1..]))
  }

  lemma {:induction false} XorSplit(mix: Mix, l: Chain, i: nat)
    requires i < |l|
    ensures XorSeq(mix, l) == Xor(mix(l[i].0, l[i].1), XorSeq(mix, l[..i] + l[i + 1..]))
  {
    var m := l[..i] + l[i + 1..];
    if i == 0 {
      assert m == l[1..];
    } else {
      XorSplit(mix, l[1..], i - 1);
      assert l[1..][..i - 1] + l[1..][i..] == m[1..];
      XorSwap(mix(l[0].0, l[0].1), mix(l[i].0, l[i].1), XorSeq(mix, m[1..]));
    }
  }

  /** The order does not matter. */
  lemma {:induction false} XorPermuted(mix: Mix, l: Chain, m: Chain)
    requires multiset(l) == multiset(m)
    ensures XorSeq(mix, l) == XorSeq(mix, m)
    decreases |l|
  {
    assert |l| == |multiset(l)| == |multiset(m)| == |m|;
    if l != [] {
      assert l[0] in multiset(m);
      var i :| 0 <= i < |m| && m[i] == l[0];
      XorSplit(mix, m, i);
      BothShorter(l, m, i);
      XorPermuted(mix, l[1..], m[..i] + m[i + 1..]);
    }
  }

  ghost function Entries(m: Edges): set<(Id, Label)> {
    set c | c in m :: (c, m[c])
  }

  /** The hash of a map: its entries combined in any order. */
  ghost function HashOf(mix: Mix, m: Edges): nat {
    XorSeq(mix, Listed(Entries(m)))
  }

  lemma HashNothing(mix: Mix)
    ensures HashOf(mix, map[]) == 0
  {
    var m: Edges := map[];
    assert Entries(m) == {};
    var l := Listed(Entries(m));
    assert |l| == |multiset(l)| == 0;
  }

  lemma EntriesInsert(m: Edges, d: Id, l: Label)
    requires d !in m
    ensures Entries(m[d := l]) == Entries(m) + {(d, l)} && (d, l) !in Entries(m)
  {
    var n := m[d := l];
    forall c | c in m ensures (c, m[c]) in Entries(n) { assert c in n; }
    assert d in n;
  }

  lemma HashInsert(mix: Mix, m: Edges, d: Id, l: Label)
    requires d !in m
    ensures HashOf(mix, m[d := l]) == Xor(HashOf(mix, m), mix(d, l))
  {
    var n, k := m[d := l], Listed(Entries(m));
    EntriesInsert(m, d, l);
    var longer := [(d, l)] + k;
    assert multiset(Entries(n)) == multiset(Entries(m)) + multiset{(d, l)};
    assert Lists(longer, Entries(n));
    XorPermuted(mix, Listed(Entries(n)), longer);
    assert longer[1..] == k;
    XorComm(mix(d, l), XorSeq(mix, k));
  }

  // ---------------------------------------------------------------- chains

  /** Mix the entries of one chain into the hash of what came before. */
  method HashChain(mix: Mix, chain: Chain, h0: nat, ghost m: Edges) returns (h: nat)
    requires Distinct(chain) && m.Keys !! ToMap(chain).Keys && h0 == HashOf(mix, m)
    ensures h == HashOf(mix, m + ToMap(chain))
  {
    h := h0;
    var rest := chain;
    ghost var seen := m;
    while rest != []
      invariant Distinct(rest) && seen.Keys !! ToMap(rest).Keys && h == HashOf(mix, seen)
      invariant seen + ToMap(rest) == m + ToMap(chain)
      decreases |rest|
    {
      var e := rest[0];
      HashInsert(mix, seen, e.0, e.1);
      MoveOne(seen, rest);
      h := Xor(h, mix(e.0, e.1));
      seen := seen[e.0 := e.1];
      rest := rest[1..];
    }
    assert seen + ToMap(rest) == seen;
  }

  /** Does map m, given by its buckets, hold every entry of the chain? */
  method ChainIn(hash: Hash<Id>, chain: Chain, b: seq<Chain>, ghost m: Edges) returns (r: bool)
    requires Distinct(chain) && Holds(hash, b, m)
    ensures r <==> forall c :: c in ToMap(chain) ==> c in m && m[c] == ToMap(chain)[c]
  {
    r := true;
    var rest := chain;
    while rest != [] && r
      invariant Distinct(rest)
      invariant forall c :: c in ToMap(rest) ==> c in ToMap(chain) && ToMap(chain)[c] == ToMap(rest)[c]
      invariant r ==> forall c :: c in ToMap(chain) && c !in ToMap(rest) ==> c in m && m[c] == ToMap(chain)[c]
      invariant !r ==> exists c :: c in ToMap(chain) && !(c in m && m[c] == ToMap(chain)[c])
      decreases |rest|
    {
      var e := rest[0];
      var l := Lookup(hash, b, m, e.0);
      r := l == Some(e.1);
      assert e.0 in ToMap(rest);
      rest := rest[1..];
    }
  }

  // ---------------------------------------------------------------- the map

  class EdgeMap {
    const hash: Hash<Id>
    const mix: Mix
    var buckets: seq<Chain>
    var count: nat
    var threshold: nat
    var cachedHash: nat
    ghost var contents: Edges

    ghost predicate Sound()
      reads this
    {
      Holds(hash, buckets, contents) && count == |contents| && FALSE !in contents
    }

    /** Sound, and less than seven eighths full. */
    ghost predicate Valid()
      reads this
    {
      Sound() && count < threshold == |buckets| - |buckets| / 8
    }

    constructor (hash: Hash<Id>, mix: Mix, size: nat)
      ensures Valid() && contents == map[] && this.hash == hash && this.mix == mix
    {
      var k := LogCeil(if size < DEFAULT_EDGE_BUCKET_COUNT then DEFAULT_EDGE_BUCKET_COUNT else size);
      this.hash, this.mix := hash, mix;
      buckets, count, cachedHash := seq(Pow2(k), _ => []), 0, 0;
      threshold := Pow2(k) - Pow2(k) / 8;
      contents := map[];
      new;
      HoldsNothing(hash, k, buckets);
      assert Pow2(k) >= DEFAULT_EDGE_BUCKET_COUNT;
    }

    method Find(c: Id) returns (l: Option<Label>)
      requires Valid()
      ensures l == if c in contents then Some(contents[c]) else None
    {
      l := Lookup(hash, buckets, contents, c);
    }

    /** Unite a label into a child's edge; the touched entry moves to the front of its chain. */
    method Add(c: Id, l: Label)
      requires Valid()
      modifies this
      ensures Valid() && contents == AddEdge(old(contents), c, l) && cachedHash == old(cachedHash)
    {
      if c != FALSE {
        var i, j := Locate(hash, buckets, contents, c);
        if j < |buckets[i]| {
          var united := Unlink(c, i, j, l);
          Front(c, i, united);
        } else {
          Front(c, i, l);
        }
      }
    }

    /** Link an entry at the front of its chain, then grow if the map is full. */
    method Front(c: Id, i: nat, l: Label)
      requires Valid() && c !in contents && c != FALSE && |buckets| > 0 && i < |buckets|
      requires i == Mask(hash(c), |buckets| - 1)
      modifies this`buckets, this`count, this`contents, this`threshold
      ensures Valid() && contents == old(contents)[c := l]
    {
      HoldsPut(hash, buckets, contents, c, l, i);
      buckets := buckets[i := [(c, l)] + buckets[i]];
      contents := contents[c := l];
      count := count + 1;
      if count >= threshold {
        Rehash(2 * |buckets|);
      }
    }

    /** Take an entry out of its chain, returning its label united with l. */
    method Unlink(c: Id, i: nat, j: nat, l: Label) returns (united: Label)
      requires Valid() && |buckets| > 0 && i < |buckets| && i == Mask(hash(c), |buckets| - 1) && j < |buckets[i]|
      requires buckets[i][j].0 == c
      modifies this`buckets, this`count, this`contents
      ensures Valid() && |buckets| == |old(buckets)|
      ensures c in old(contents) && united == old(contents)[c] + l && contents == old(contents) - {c}
    {
      EntryIs(hash, buckets, contents, i, j);
      HoldsRemove(hash, buckets, contents, c, i, j);
      united := buckets[i][j].1 + l;
      buckets := buckets[i := buckets[i][..j] + buckets[i][j + 1..]];
      assert (contents - {c}).Keys == contents.Keys - {c};
      contents := contents - {c};
      count := count - 1;
    }

    /** Spread the entries over more buckets. */
    method Rehash(size: nat)
      requires Sound()
      modifies this`buckets, this`threshold
      ensures Sound() && |buckets| >= size && threshold == |buckets| - |buckets| / 8
    {
      var k := LogCeil(if size < DEFAULT_EDGE_BUCKET_COUNT then DEFAULT_EDGE_BUCKET_COUNT else size);
      var b := Respread(hash, buckets, contents, k);
      buckets := b;
      threshold := |b| - |b| / 8;
    }

    /** The hash of the content: it does not see buckets, order or history. */
    method ComputeHash() returns (h: nat)
      requires Valid()
      ensures h == HashOf(mix, contents)
    {
      h := 0;
      HashNothing(mix);
      BelowEnds(hash, buckets, contents);
      ghost var seen: Edges := map[];
      var i := 0;
      while i < |buckets|
        invariant i <= |buckets| && seen == Below(hash, |buckets|, contents, i) && h == HashOf(mix, seen)
      {
        assert ChainOk(hash, |buckets|, contents, i, buckets[i]);
        BelowNext(hash, buckets, contents, i);
        h := HashChain(mix, buckets[i], h, seen);
        seen := seen + ToMap(buckets[i]);
        i := i + 1;
      }
    }

    ghost predicate Hashed()
      reads this
    {
      cachedHash == HashOf(mix, contents)
    }
  }

  /** Content comparison of two hashed maps, with early rejection by hash and count. */
  method EdgesEqual(a: EdgeMap, b: EdgeMap) returns (r: bool)
    requires a.Valid() && b.Valid() && a.Hashed() && b.Hashed() && a.mix == b.mix
    ensures r <==> a.contents == b.contents
  {
    if a == b {
      r := true;
    } else if a.cachedHash != b.cachedHash || a.count != b.count {
      r := false;
    } else if a.count == 0 {
      assert a.contents == map[] && b.contents == map[];
      r := true;
    } else {
      r := AllIn(a, b);
      if r { IncludedSameSize(a.contents, b.contents); }
    }
  }

  ghost predicate Included(m: Edges, n: Edges) {
    forall c :: c in m ==> c in n && n[c] == m[c]
  }

  method AllIn(a: EdgeMap, b: EdgeMap) returns (r: bool)
    requires a.Valid() && b.Valid()
    ensures r <==> Included(a.contents, b.contents)
  {
    r := true;
    BelowEnds(a.hash, a.buckets, a.contents);
    var i := 0;
    while i < |a.buckets| && r
      invariant i <= |a.buckets| && (r ==> Included(Below(a.hash, |a.buckets|, a.contents, i), b.contents))
      invariant !r ==> !Included(a.contents, b.contents)
    {
      assert ChainOk(a.hash, |a.buckets|, a.contents, i, a.buckets[i]);
      BelowNext(a.hash, a.buckets, a.contents, i);
      r := ChainIn(b.hash, a.buckets[i], b.buckets, b.contents);
      i := i + 1;
    }
  }

  lemma IncludedSameSize(m: Edges, n: Edges)
    requires Included(m, n) && |m| == |n|
    ensures m == n
  {
    assert m.Keys <= n.Keys;
    assert n.Keys == m.Keys + (n.Keys - m.Keys);
    assert |n.Keys - m.Keys| == 0;
  }
}
