/** Counting the chains of an index: what `Index::stats` and `Index::empty` report. */
module IndexCounts {
  import opened Codec
  import opened Records
  import opened IndexImage

  /** The number of entries in the first `k` buckets. */
  function TotalLength(chains: Chains, k: nat): nat
    requires k <= |chains|
  {
    if k == 0 then 0 else TotalLength(chains, k - 1) + |chains[k - 1]|
  }

  /** The number of empty buckets among the first `k`. */
  function EmptyCount(chains: Chains, k: nat): (c: nat)
    requires k <= |chains|
    ensures c <= k
  {
    if k == 0 then 0 else EmptyCount(chains, k - 1) + (if chains[k - 1] == [] then 1 else 0)
  }

  /** The buckets among the first `k` that have no entry. */
  function EmptyBuckets(chains: Chains, k: nat): set<nat>
    requires k <= |chains|
  {
    set b: nat | b < k && chains[b] == []
  }

  /** Counting them one by one finds all of them. */
  lemma {:induction false} EmptyCountIs(chains: Chains, k: nat)
    requires k <= |chains|
    ensures EmptyCount(chains, k) == |EmptyBuckets(chains, k)|
  {
    if k == 0 {
      assert EmptyBuckets(chains, 0) == {};
    } else {
      EmptyCountIs(chains, k - 1);
      var last := if chains[k - 1] == [] then {k - 1} else {};
      assert EmptyBuckets(chains, k) == EmptyBuckets(chains, k - 1) + last;
    }
  }

  function KeysOf(c: seq<Entry>): set<Key>
  {
    set i | 0 <= i < |c| :: c[i].key
  }

  lemma OrderedSnoc(c: seq<Entry>, e: Entry)
    requires Ordered(c + [e])
    ensures Ordered(c) && e.key !in KeysOf(c)
  {
    var all := c + [e];
    assert all[|c|] == e && forall i | 0 <= i < |c| :: all[i] == c[i];
  }

  lemma {:induction false} DistinctKeys(c: seq<Entry>)
    requires Ordered(c)
    ensures |KeysOf(c)| == |c|
    decreases |c|
  {
    if c == [] {
      assert KeysOf(c) == {};
    } else {
      hide Ordered, KeysOf;
      var init, last := c[..|c| - 1], c[|c| - 1];
      assert init + [last] == c;
      OrderedSnoc(init, last);
      DistinctKeys(init);
      KeysOfSnoc(init, last);
    }
  }

  lemma KeysOfSnoc(c: seq<Entry>, e: Entry)
    ensures KeysOf(c + [e]) == KeysOf(c) + {e.key}
  {
    var all := c + [e];
    assert all[|c|] == e;
    assert forall i | 0 <= i < |c| :: all[i] == c[i];
  }

  /** The keys of the first `k` buckets. */
  function KeysUpTo(chains: Chains, k: nat): set<Key>
    requires k <= |chains|
  {
    if k == 0 then {} else KeysUpTo(chains, k - 1) + KeysOf(chains[k - 1])
  }

  lemma {:induction false} KeyInBucket(chains: Chains, k: nat, key: Key)
    requires k <= |chains|
    ensures key in KeysUpTo(chains, k) <==> exists b | 0 <= b < k :: key in KeysOf(chains[b])
  {
    if k > 0 {
      KeyInBucket(chains, k - 1, key);
    }
  }

  /** Keys of different buckets differ, so lengths add up. */
  lemma {:induction false} CountKeys(n: nat, size: nat, chains: Chains, k: nat)
    requires Geometry(n, size, chains) && k <= n
    ensures |KeysUpTo(chains, k)| == TotalLength(chains, k)
  {
    hide Ordered, Apart, KeysOf, Placed;
    if k > 0 {
      CountKeys(n, size, chains, k - 1);
      DistinctKeys(chains[k - 1]);
      var before, last := KeysUpTo(chains, k - 1), KeysOf(chains[k - 1]);
      forall key | key in before
        ensures key !in last
      {
        KeyInBucket(chains, k - 1, key);
        KeyHashes(n, size, chains, key);
      }
      assert before !! last;
    }
  }

  lemma KeyHashes(n: nat, size: nat, chains: Chains, key: Key)
    requires Geometry(n, size, chains)
    ensures forall b | 0 <= b < n && key in KeysOf(chains[b]) :: b == Bucket(key, n)
  {
    hide Ordered, Apart, Bucket;
    forall b | 0 <= b < n && key in KeysOf(chains[b])
      ensures b == Bucket(key, n)
    {
      var i :| 0 <= i < |chains[b]| && chains[b][i].key == key;
      assert Placed(n, size, b, chains[b][i]);
    }
  }

  /** The chain lengths summed over all buckets are the number of keys in the map. */
  lemma TotalIsSize(n: nat, size: nat, chains: Chains)
    requires Geometry(n, size, chains)
    ensures TotalLength(chains, n) == |Bindings(chains)|
  {
    hide Ordered, Apart, Bucket, Bindings;
    CountKeys(n, size, chains, n);
    forall key
      ensures key in Bindings(chains) <==> key in KeysUpTo(chains, n)
    {
      Bound(chains, key);
      KeyInBucket(chains, n, key);
      KeyHashes(n, size, chains, key);
      var c := chains[Bucket(key, n)];
      if key in KeysOf(c) {
        var i :| 0 <= i < |c| && c[i].key == key;
        assert Position(c, key) <= i;
      }
      assert Position(c, key) < |c| ==> c[Position(c, key)].key in KeysOf(c);
    }
    assert Bindings(chains).Keys == KeysUpTo(chains, n);
    assert |Bindings(chains)| == |Bindings(chains).Keys|;
  }

  lemma {:induction false} TotalZero(chains: Chains, k: nat)
    requires k <= |chains|
    ensures TotalLength(chains, k) == 0 <==> EmptyCount(chains, k) == k
    ensures EmptyCount(chains, k) == k <==> forall b | 0 <= b < k :: chains[b] == []
  {
    if k > 0 {
      TotalZero(chains, k - 1);
    }
  }
}
