/** Hash chains: how an array of buckets represents a finite map. */
module Buckets {
  import opened Labels
  import opened Fractions

  /** Bitwise and of two naturals. */
  function Mask(h: nat, m: nat): nat {
    if h == 0 || m == 0 then 0
    else (if h % 2 == 1 && m % 2 == 1 then 1 else 0) + 2 * Mask(h / 2, m / 2)
  }

  /** Bitwise exclusive or of two naturals. */
  function Xor(a: nat, b: nat): nat {
    if a == 0 then b else if b == 0 then a
    else (if a % 2 != b % 2 then 1 else 0) + 2 * Xor(a / 2, b / 2)
  }

  lemma XorBits(a: nat, b: nat)
    ensures Xor(a, b) % 2 == (if a % 2 != b % 2 then 1 else 0) && Xor(a, b) / 2 == Xor(a / 2, b / 2)
  {
    if a > 0 && b > 0 { Halves(if a % 2 != b % 2 then 1 else 0, Xor(a / 2, b / 2)); }
  }

  lemma Halves(bit: nat, q: nat)
    requires bit <= 1
    ensures (bit + 2 * q) % 2 == bit && (bit + 2 * q) / 2 == q
  {}

  lemma {:induction false} XorComm(a: nat, b: nat)
    ensures Xor(a, b) == Xor(b, a)
  {
    if a > 0 && b > 0 { XorComm(a / 2, b / 2); }
  }

  lemma {:induction false} XorSwap(a: nat, b: nat, c: nat)
    ensures Xor(a, Xor(b, c)) == Xor(b, Xor(a, c))
    decreases a + b + c
  {
    if a > 0 && b > 0 {
      XorSwap(a / 2, b / 2, c / 2);
      XorBits(b, c);
      XorBits(a, c);
      XorBits(a, Xor(b, c));
      XorBits(b, Xor(a, c));
    }
  }

  /** Masking with 2^k - 1 is the remainder modulo 2^k. */
  lemma {:induction false} MaskIsMod(h: nat, k: nat)
    ensures Mask(h, Pow2(k) - 1) == h % Pow2(k)
    decreases k
  {
    if k > 0 {
      MaskStep(h, Pow2(k - 1));
      MaskIsMod(h / 2, k - 1);
      ModHalves(h, Pow2(k - 1));
    }
  }

  lemma MaskStep(h: nat, p: nat)
    requires p > 0
    ensures Mask(h, 2 * p - 1) == h % 2 + 2 * Mask(h / 2, p - 1)
  {
    assert (2 * p - 1) / 2 == p - 1 && (2 * p - 1) % 2 == 1;
  }

  lemma ModHalves(h: nat, p: nat)
    requires p > 0
    ensures h % (2 * p) == h % 2 + 2 * ((h / 2) % p)
  {
    var q, r := h / 2 / p, (h / 2) % p;
    assert h / 2 == q * p + r;
    assert h == (2 * p) * q + (h % 2 + 2 * r) by {
      assert 2 * (q * p) == (2 * p) * q;
    }
    RemainderIs(2 * p, q, h % 2 + 2 * r);
  }

  lemma RemainderIs(d: nat, q: int, r: nat)
    requires r < d
    ensures (d * q + r) % d == r
  {
    var x := d * q + r;
    if x / d < q { MulNext(d, x / d, q); }
    if x / d > q { MulNext(d, q, x / d); }
  }

  lemma MulNext(d: nat, x: int, y: int)
    requires x < y
    ensures d * x + d <= d * y
  {
    assert d * y == d * (x + 1) + d * (y - x - 1);
  }

  /** The smallest power of two that is at least n, and its exponent. */
  function LogCeil(n: nat): (k: nat)
    ensures n <= Pow2(k) && (k > 0 ==> Pow2(k - 1) < n)
  {
    if n <= 1 then 0 else LogCeil((n + 1) / 2) + 1
  }

  // ---------------------------------------------------------------- chains

  /** What a chain holds; earlier entries would win. */
  function ToMap<K, V>(chain: seq<(K, V)>): map<K, V> {
    if chain == [] then map[] else ToMap(chain[1..])[chain[0].0 := chain[0].1]
  }

  /** No key occurs twice. */
  predicate Distinct<K(==), V>(chain: seq<(K, V)>) {
    chain == [] || (chain[0].0 !in ToMap(chain[1..]) && Distinct(chain[1..]))
  }

  lemma {:induction false} ChainEntry<K, V>(chain: seq<(K, V)>, j: nat)
    requires Distinct(chain) && j < |chain|
    ensures chain[j].0 in ToMap(chain) && ToMap(chain)[chain[j].0] == chain[j].1
  {
    if j > 0 {
      assert chain[1..][j - 1] == chain[j];
      ChainEntry(chain[1..], j - 1);
    }
  }

  lemma {:induction false} ChainHas<K, V>(chain: seq<(K, V)>, c: K)
    requires c in ToMap(chain)
    ensures exists j :: 0 <= j < |chain| && chain[j].0 == c
  {
    if chain[0].0 != c {
      ChainHas(chain[1..], c);
      var j :| 0 <= j < |chain[1..]| && chain[1..][j].0 == c;
      assert chain[j + 1].0 == c;
    }
  }

  /** Unlinking the entry at j. */
  lemma {:induction false} ChainUnlink<K, V>(chain: seq<(K, V)>, j: nat)
    requires Distinct(chain) && j < |chain|
    ensures Distinct(chain[..j] + chain[j + 1..]) && ToMap(chain[..j] + chain[j + 1..]) == ToMap(chain) - {chain[j].0}
  {
    var c := chain[..j] + chain[j + 1..];
    if j == 0 {
      assert c == chain[1..];
    } else {
      ChainUnlink(chain[1..], j - 1);
      assert c[1..] == chain[1..][..j - 1] + chain[1..][j..];
      assert c[0] == chain[0];
      ChainEntry(chain[1..], j - 1);
      assert chain[1..][j - 1] == chain[j];
    }
  }

  // ---------------------------------------------------------------- buckets

  type Hash<!K> = K -> nat

  /** The part of m that belongs into bucket i of n. */
  function Part<K, V>(h: Hash<K>, n: nat, m: map<K, V>, i: nat): map<K, V>
    requires n > 0
  {
    map c | c in m && Mask(h(c), n - 1) == i :: m[c]
  }

  ghost predicate ChainOk<K, V>(h: Hash<K>, n: nat, m: map<K, V>, i: nat, chain: seq<(K, V)>)
    requires n > 0
  {
    Distinct(chain) && ToMap(chain) == Part(h, n, m, i)
  }

  ghost predicate IsPow2(n: nat) { exists k :: n == Pow2(k) }

  /** The buckets hold exactly m, each key once and in the bucket its hash selects. */
  ghost predicate Holds<K, V>(h: Hash<K>, b: seq<seq<(K, V)>>, m: map<K, V>) {
    && IsPow2(|b|)
    && forall i {:trigger ChainOk(h, |b|, m, i, b[i])} :: 0 <= i < |b| ==> ChainOk(h, |b|, m, i, b[i])
  }

  lemma BucketExists<K, V>(h: Hash<K>, b: seq<seq<(K, V)>>, m: map<K, V>, c: K)
    requires Holds(h, b, m)
    ensures |b| > 0 && Mask(h(c), |b| - 1) < |b| && Mask(h(c), |b| - 1) == h(c) % |b|
  {
    var k :| |b| == Pow2(k);
    MaskIsMod(h(c), k);
  }

  lemma HoldsNothing<K, V>(h: Hash<K>, k: nat, b: seq<seq<(K, V)>>)
    requires |b| == Pow2(k) && forall i :: 0 <= i < |b| ==> b[i] == []
    ensures Holds(h, b, map[])
  {
    forall i | 0 <= i < |b| ensures ChainOk(h, |b|, map[], i, b[i]) {
      assert b[i] == [];
    }
  }

  lemma PartPut<K, V>(h: Hash<K>, n: nat, m: map<K, V>, c: K, v: V, j: nat)
    requires n > 0
    ensures Part(h, n, m[c := v], j) == if Mask(h(c), n - 1) == j then Part(h, n, m, j)[c := v] else
            Part(h, n, m, j) - {c}
  {}

  lemma ChainPut<K, V>(h: Hash<K>, n: nat, m: map<K, V>, c: K, v: V, j: nat, chain: seq<(K, V)>)
    requires n > 0 && j == Mask(h(c), n - 1) && c !in m && ChainOk(h, n, m, j, chain)
    ensures ChainOk(h, n, m[c := v], j, [(c, v)] + chain)
  {
    var longer := [(c, v)] + chain;
    assert longer[1..] == chain;
    PartPut(h, n, m, c, v, j);
  }

  /** Putting a new key at the front of its bucket. */
  lemma HoldsPut<K, V>(h: Hash<K>, b: seq<seq<(K, V)>>, m: map<K, V>, c: K, v: V, i: nat)
    requires Holds(h, b, m) && c !in m && |b| > 0 && i == Mask(h(c), |b| - 1) && i < |b|
    ensures Holds(h, b[i := [(c, v)] + b[i]], m[c := v])
  {
    var b', m' := b[i := [(c, v)] + b[i]], m[c := v];
    forall j | 0 <= j < |b'| ensures ChainOk(h, |b'|, m', j, b'[j]) {
      assert ChainOk(h, |b|, m, j, b[j]);
      if j == i {
        ChainPut(h, |b|, m, c, v, j, b[j]);
      } else {
        PartPut(h, |b|, m, c, v, j);
      }
    }
  }

  /** Unlinking a key from its bucket. */
  lemma HoldsRemove<K, V>(h: Hash<K>, b: seq<seq<(K, V)>>, m: map<K, V>, c: K, i: nat, j: nat)
    requires Holds(h, b, m) && |b| > 0 && i < |b| && i == Mask(h(c), |b| - 1) && j < |b[i]| && b[i][j].0 == c
    ensures Holds(h, b[i := b[i][..j] + b[i][j + 1..]], m - {c})
  {
    var b', m' := b[i := b[i][..j] + b[i][j + 1..]], m - {c};
    forall l | 0 <= l < |b'| ensures ChainOk(h, |b'|, m', l, b'[l]) {
      assert ChainOk(h, |b|, m, l, b[l]);
      if l == i {
        ChainUnlink(b[i], j);
        assert Part(h, |b|, m', l) == Part(h, |b|, m, l) - {c};
      } else {
        assert Part(h, |b|, m', l) == Part(h, |b|, m, l);
      }
    }
  }

  /** Keys in the first i buckets. */
  function Below<K, V>(h: Hash<K>, n: nat, m: map<K, V>, i: nat): map<K, V>
    requires n > 0
  {
    map c | c in m && Mask(h(c), n - 1) < i :: m[c]
  }

  lemma BelowEnds<K, V>(h: Hash<K>, b: seq<seq<(K, V)>>, m: map<K, V>)
    requires Holds(h, b, m)
    ensures |b| > 0 && Below(h, |b|, m, 0) == map[] && Below(h, |b|, m, |b|) == m
  {
    var k :| |b| == Pow2(k);
    forall c | c in m ensures Mask(h(c), |b| - 1) < |b| { BucketExists(h, b, m, c); }
  }

  lemma BelowNext<K, V>(h: Hash<K>, b: seq<seq<(K, V)>>, m: map<K, V>, i: nat)
    requires Holds(h, b, m) && i < |b|
    ensures Below(h, |b|, m, i).Keys !! ToMap(b[i]).Keys
    ensures Below(h, |b|, m, i + 1) == Below(h, |b|, m, i) + ToMap(b[i])
  {
    assert ChainOk(h, |b|, m, i, b[i]);
  }

  // ---------------------------------------------------------------- working on buckets

  /** Walk a chain for a key. */
  method Position<K(==), V>(chain: seq<(K, V)>, c: K) returns (j: nat)
    ensures j <= |chain|
    ensures j < |chain| ==> chain[j].0 == c
    ensures j == |chain| ==> c !in ToMap(chain)
  {
    j := 0;
    while j < |chain| && chain[j].0 != c
      invariant j <= |chain| && forall k :: 0 <= k < j ==> chain[k].0 != c
    {
      j := j + 1;
    }
    if j == |chain| && c in ToMap(chain) { ChainHas(chain, c); }
  }

  lemma EntryIs<K, V>(h: Hash<K>, b: seq<seq<(K, V)>>, m: map<K, V>, i: nat, j: nat)
    requires Holds(h, b, m) && i < |b| && j < |b[i]|
    ensures b[i][j].0 in m && m[b[i][j].0] == b[i][j].1 && Mask(h(b[i][j].0), |b| - 1) == i
  {
    assert ChainOk(h, |b|, m, i, b[i]);
    ChainEntry(b[i], j);
    assert b[i][j].0 in Part(h, |b|, m, i);
  }

  /** A key that its bucket does not hold is not in the map. */
  lemma NotInChain<K, V>(h: Hash<K>, b: seq<seq<(K, V)>>, m: map<K, V>, c: K)
    requires Holds(h, b, m) && |b| > 0 && Mask(h(c), |b| - 1) < |b|
    requires c !in ToMap(b[Mask(h(c), |b| - 1)])
    ensures c !in m
  {
    var i := Mask(h(c), |b| - 1);
    assert ChainOk(h, |b|, m, i, b[i]);
    assert c !in Part(h, |b|, m, i);
  }

  /** The bucket of a key and its place in the chain, past the end if it has none. */
  method Locate<K(==), V>(h: Hash<K>, b: seq<seq<(K, V)>>, ghost m: map<K, V>, c: K) returns (i: nat, j: nat)
    requires Holds(h, b, m)
    ensures i < |b| && i == Mask(h(c), |b| - 1) && j <= |b[i]|
    ensures j < |b[i]| ==> b[i][j].0 == c && c in m && m[c] == b[i][j].1
    ensures j == |b[i]| ==> c !in m
  {
    BucketExists(h, b, m, c);
    i := Mask(h(c), |b| - 1);
    j := Position(b[i], c);
    if j < |b[i]| {
      EntryIs(h, b, m, i, j);
    } else {
      NotInChain(h, b, m, c);
    }
  }

  method Lookup<K(==), V>(h: Hash<K>, b: seq<seq<(K, V)>>, ghost m: map<K, V>, c: K) returns (v: Option<V>)
    requires Holds(h, b, m)
    ensures v == if c in m then Some(m[c]) else None
  {
    var i, j := Locate(h, b, m, c);
    v := if j < |b[i]| then Some(b[i][j].1) else None;
  }

  lemma MoveOne<K, V>(m: map<K, V>, chain: seq<(K, V)>)
    requires chain != [] && Distinct(chain) && m.Keys !! ToMap(chain).Keys
    ensures var e := chain[0];
            && e.0 !in m && m[e.0 := e.1].Keys !! ToMap(chain[1..]).Keys
            && m[e.0 := e.1] + ToMap(chain[1..]) == m + ToMap(chain)
  {}

  /** Relink the entries of one chain into other buckets. */
  method MoveChain<K(==), V>(h: Hash<K>, chain: seq<(K, V)>, b0: seq<seq<(K, V)>>, ghost m: map<K, V>)
    returns (b: seq<seq<(K, V)>>)
    requires Distinct(chain) && m.Keys !! ToMap(chain).Keys && Holds(h, b0, m)
    ensures Holds(h, b, m + ToMap(chain)) && |b| == |b0|
  {
    b := b0;
    var rest := chain;
    ghost var seen := m;
    while rest != []
      invariant Distinct(rest) && seen.Keys !! ToMap(rest).Keys && Holds(h, b, seen) && |b| == |b0|
      invariant seen + ToMap(rest) == m + ToMap(chain)
      decreases |rest|
    {
      var e := rest[0];
      MoveOne(seen, rest);
      BucketExists(h, b, seen, e.0);
      var i := h(e.0) % |b|;
      HoldsPut(h, b, seen, e.0, e.1, i);
      b := b[i := [e] + b[i]];
      seen := seen[e.0 := e.1];
      rest := rest[1..];
    }
    assert seen + ToMap(rest) == seen;
  }

  /** Spread all entries over 2^k buckets. */
  method Respread<K(==), V>(h: Hash<K>, from: seq<seq<(K, V)>>, ghost m: map<K, V>, k: nat)
    returns (b: seq<seq<(K, V)>>)
    requires Holds(h, from, m)
    ensures Holds(h, b, m) && |b| == Pow2(k)
  {
    b := seq(Pow2(k), _ => []);
    HoldsNothing(h, k, b);
    BelowEnds(h, from, m);
    var i := 0;
    while i < |from|
      invariant i <= |from| && |b| == Pow2(k)
      invariant Holds(h, b, Below(h, |from|, m, i))
    {
      assert ChainOk(h, |from|, m, i, from[i]);
      BelowNext(h, from, m, i);
      b := MoveChain(h, from[i], b, Below(h, |from|, m, i));
      i := i + 1;
    }
  }
}
