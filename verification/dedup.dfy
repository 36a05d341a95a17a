/** Deduplication of generated moves: bucket them by (from, to) in order of first
    appearance, then keep from each bucket the first move of least path length (what a
    stable sort by path length followed by taking the head yields). */
module Dedup {
  import opened Types

  function KeyOf(m: Move): (Coord, Coord)
  {
    (m.from, m.to)
  }

  function KeysOf(ms: seq<Move>): set<(Coord, Coord)>
  {
    set m | m in ms :: KeyOf(m)
  }

  /** The moves of `ms` with key `k`, in their original order. */
  function WithKey(ms: seq<Move>, k: (Coord, Coord)): (r: seq<Move>)
    ensures forall m :: m in r ==> m in ms && KeyOf(m) == k
    ensures forall m :: m in ms && KeyOf(m) == k ==> m in r
    decreases |ms|
  {
    if ms == [] then []
    else
      var init := WithKey(ms[..|ms| - 1], k);
      if KeyOf(Last(ms)) == k then init + [Last(ms)] else init
  }

  predicate NonEmptyBuckets(bs: seq<seq<Move>>)
  {
    forall j :: 0 <= j < |bs| ==> |bs[j]| > 0
  }

  /** Position of the bucket whose key is `k`, or |bs| when there is none. */
  function BucketIndex(bs: seq<seq<Move>>, k: (Coord, Coord)): (j: nat)
    requires NonEmptyBuckets(bs)
    ensures j <= |bs|
    ensures j < |bs| ==> KeyOf(bs[j][0]) == k
    ensures forall i :: 0 <= i < j ==> KeyOf(bs[i][0]) != k
    decreases |bs|
  {
    if bs == [] then 0
    else if KeyOf(bs[0][0]) == k then 0
    else 1 + BucketIndex(bs[1..], k)
  }

  lemma WithKeyAppend(ms: seq<Move>, m: Move, k: (Coord, Coord))
    ensures WithKey(ms + [m], k) == WithKey(ms, k) + (if KeyOf(m) == k then [m] else [])
  {
    assert (ms + [m])[..|ms|] == ms;
  }

  lemma {:induction false} WithKeyAbsent(ms: seq<Move>, k: (Coord, Coord))
    requires k !in KeysOf(ms)
    ensures WithKey(ms, k) == []
    decreases |ms|
  {
    if ms != [] {
      var init := ms[..|ms| - 1];
      assert KeysOf(init) <= KeysOf(ms);
      WithKeyAbsent(init, k);
      assert Last(ms) in ms;
    }
  }

  function HeadKeys(bs: seq<seq<Move>>): set<(Coord, Coord)>
    requires NonEmptyBuckets(bs)
  {
    set j | 0 <= j < |bs| :: KeyOf(bs[j][0])
  }

  /** `bs` is the bucketing of `ms`: one bucket per key of `ms`, holding exactly the
      moves of that key in their original order. */
  predicate Bucketed(ms: seq<Move>, bs: seq<seq<Move>>)
  {
    && NonEmptyBuckets(bs)
    && (forall j :: 0 <= j < |bs| ==> bs[j] == WithKey(ms, KeyOf(bs[j][0])))
    && (forall i, j :: 0 <= i < j < |bs| ==> KeyOf(bs[i][0]) != KeyOf(bs[j][0]))
    && HeadKeys(bs) == KeysOf(ms)
  }

  /** One step of the bucketing loop: append to the bucket of the move's key, or open one. */
  function AddToBucket(bs: seq<seq<Move>>, m: Move): (r: seq<seq<Move>>)
    requires NonEmptyBuckets(bs)
  {
    var j := BucketIndex(bs, KeyOf(m));
    if j < |bs| then bs[j := bs[j] + [m]] else bs + [[m]]
  }

  lemma AddToBucketKeepsBucketed(ms: seq<Move>, bs: seq<seq<Move>>, m: Move)
    requires Bucketed(ms, bs)
    ensures Bucketed(ms + [m], AddToBucket(bs, m))
  {
    var j := BucketIndex(bs, KeyOf(m));
    KeysOfAppend(ms, m);
    if j < |bs| {
      JoinBucket(ms, bs, m, j);
    } else {
      assert KeyOf(m) !in HeadKeys(bs);
      OpenBucket(ms, bs, m);
    }
  }

  lemma KeysOfAppend(ms: seq<Move>, m: Move)
    ensures KeysOf(ms + [m]) == KeysOf(ms) + {KeyOf(m)}
  {
    assert forall o :: o in ms + [m] <==> o in ms || o == m;
  }

  lemma HeadKeysUpdate(bs: seq<seq<Move>>, j: nat, m: Move)
    requires NonEmptyBuckets(bs) && j < |bs|
    ensures NonEmptyBuckets(bs[j := bs[j] + [m]])
    ensures forall i :: 0 <= i < |bs| ==> bs[j := bs[j] + [m]][i][0] == bs[i][0]
    ensures HeadKeys(bs[j := bs[j] + [m]]) == HeadKeys(bs)
  {
    var r := bs[j := bs[j] + [m]];
    assert forall i :: 0 <= i < |r| ==> r[i][0] == bs[i][0];
  }

  lemma HeadKeysAppend(bs: seq<seq<Move>>, m: Move)
    requires NonEmptyBuckets(bs)
    ensures NonEmptyBuckets(bs + [[m]])
    ensures HeadKeys(bs + [[m]]) == HeadKeys(bs) + {KeyOf(m)}
  {
    var r := bs + [[m]];
    assert forall i :: 0 <= i < |bs| ==> r[i] == bs[i];
    assert KeyOf(r[|bs|][0]) == KeyOf(m);
  }

  lemma JoinBucket(ms: seq<Move>, bs: seq<seq<Move>>, m: Move, j: nat)
    requires Bucketed(ms, bs) && j < |bs| && KeyOf(bs[j][0]) == KeyOf(m)
    ensures Bucketed(ms + [m], bs[j := bs[j] + [m]])
  {
    var r := bs[j := bs[j] + [m]];
    HeadKeysUpdate(bs, j, m);
    forall i | 0 <= i < |r|
      ensures r[i] == WithKey(ms + [m], KeyOf(r[i][0]))
    {
      WithKeyAppend(ms, m, KeyOf(r[i][0]));
    }
    KeysOfAppend(ms, m);
    assert KeyOf(m) in HeadKeys(bs);
  }

  lemma OpenBucket(ms: seq<Move>, bs: seq<seq<Move>>, m: Move)
    requires Bucketed(ms, bs) && KeyOf(m) !in KeysOf(ms)
    ensures Bucketed(ms + [m], bs + [[m]])
  {
    var r := bs + [[m]];
    WithKeyAbsent(ms, KeyOf(m));
    HeadKeysAppend(bs, m);
    KeysOfAppend(ms, m);
    forall i | 0 <= i < |r|
      ensures r[i] == WithKey(ms + [m], KeyOf(r[i][0]))
    {
      WithKeyAppend(ms, m, KeyOf(r[i][0]));
      if i < |bs| {
        assert r[i] == bs[i];
        assert KeyOf(bs[i][0]) in HeadKeys(bs);
      }
    }
    forall i, j | 0 <= i < j < |r|
      ensures KeyOf(r[i][0]) != KeyOf(r[j][0])
    {
      assert r[i] == bs[i];
      if j == |bs| {
        assert KeyOf(bs[i][0]) in HeadKeys(bs);
      } else {
        assert r[j] == bs[j];
      }
    }
  }

  /** The bucketing pass over the whole input. */
  function Buckets(ms: seq<Move>): (bs: seq<seq<Move>>)
    ensures Bucketed(ms, bs)
    decreases |ms|
  {
    if ms == [] then []
    else
      var init := ms[..|ms| - 1];
      assert ms == init + [Last(ms)];
      var bs := Buckets(init);
      AddToBucketKeepsBucketed(init, bs, Last(ms));
      AddToBucket(bs, Last(ms))
  }

  /** Index of the first move of least path length. */
  function ShortestIndex(bucket: seq<Move>): (j: nat)
    requires |bucket| > 0
    ensures j < |bucket|
    ensures forall i :: 0 <= i < |bucket| ==> |bucket[j].path| <= |bucket[i].path|
    ensures forall i :: 0 <= i < j ==> |bucket[i].path| > |bucket[j].path|
    decreases |bucket|
  {
    if |bucket| == 1 then 0
    else
      var j := 1 + ShortestIndex(bucket[1..]);
      if |bucket[j].path| < |bucket[0].path| then j else 0
  }

  /** The representatives: entry j of `r` is the first shortest move of bucket j. */
  predicate Representatives(bs: seq<seq<Move>>, r: seq<Move>)
    requires NonEmptyBuckets(bs)
  {
    |r| == |bs| && forall j :: 0 <= j < |bs| ==> r[j] == bs[j][ShortestIndex(bs[j])]
  }

  lemma RepresentativeOfBucket(ms: seq<Move>, bs: seq<seq<Move>>, r: seq<Move>, j: nat)
    requires Bucketed(ms, bs) && Representatives(bs, r) && j < |bs|
    ensures r[j] in ms && KeyOf(r[j]) == KeyOf(bs[j][0])
  {
    assert r[j] in WithKey(ms, KeyOf(bs[j][0]));
  }

  lemma RepresentativeKeys(ms: seq<Move>, bs: seq<seq<Move>>, r: seq<Move>)
    requires Bucketed(ms, bs) && Representatives(bs, r)
    ensures forall o :: o in r ==> o in ms
    ensures KeysOf(r) == KeysOf(ms)
    ensures forall i, j :: 0 <= i < j < |r| ==> KeyOf(r[i]) != KeyOf(r[j])
  {
    forall j | 0 <= j < |bs|
      ensures r[j] in ms && KeyOf(r[j]) == KeyOf(bs[j][0])
    {
      RepresentativeOfBucket(ms, bs, r, j);
    }
    assert KeysOf(r) == HeadKeys(bs) by {
      forall k | k in HeadKeys(bs)
        ensures k in KeysOf(r)
      {
        var j :| 0 <= j < |bs| && KeyOf(bs[j][0]) == k;
        assert r[j] in r;
      }
    }
  }

  lemma RepresentativeShortest(ms: seq<Move>, bs: seq<seq<Move>>, r: seq<Move>, j: nat, m: Move)
    requires Bucketed(ms, bs) && Representatives(bs, r) && j < |bs|
    requires m in ms && KeyOf(m) == KeyOf(r[j])
    ensures |r[j].path| <= |m.path|
  {
    RepresentativeOfBucket(ms, bs, r, j);
    var bucket := bs[j];
    assert m in WithKey(ms, KeyOf(bs[j][0]));
    var i :| 0 <= i < |bucket| && bucket[i] == m;
  }

  lemma DeduplicateFacts(ms: seq<Move>, bs: seq<seq<Move>>, r: seq<Move>)
    requires Bucketed(ms, bs) && Representatives(bs, r)
    ensures forall o :: o in r ==> o in ms
    ensures KeysOf(r) == KeysOf(ms)
    ensures forall i, j :: 0 <= i < j < |r| ==> KeyOf(r[i]) != KeyOf(r[j])
    ensures forall o, m :: o in r && m in ms && KeyOf(m) == KeyOf(o) ==> |o.path| <= |m.path|
  {
    RepresentativeKeys(ms, bs, r);
    forall o, m | o in r && m in ms && KeyOf(m) == KeyOf(o)
      ensures |o.path| <= |m.path|
    {
      var j :| 0 <= j < |r| && r[j] == o;
      RepresentativeShortest(ms, bs, r, j, m);
    }
  }

  /** One move per distinct (from, to) key: the same keys as the input, no key twice,
      each kept move taken from the input and of least path length among its key. */
  function Deduplicate(ms: seq<Move>): (r: seq<Move>)
    ensures forall o :: o in r ==> o in ms
    ensures KeysOf(r) == KeysOf(ms)
    ensures forall i, j :: 0 <= i < j < |r| ==> KeyOf(r[i]) != KeyOf(r[j])
    ensures forall o, m :: o in r && m in ms && KeyOf(m) == KeyOf(o) ==> |o.path| <= |m.path|
  {
    var bs := Buckets(ms);
    var r := seq(|bs|, j requires 0 <= j < |bs| => bs[j][ShortestIndex(bs[j])]);
    DeduplicateFacts(ms, bs, r);
    r
  }
}
