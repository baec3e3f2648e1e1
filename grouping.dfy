/**
 * The tail of `process_images_parallel`: collecting the finished records,
 * bucketing them by identifier in a dictionary, and keeping only the buckets
 * that hold more than one record. The thread pool is not modelled: its
 * results arrive as a sequence in whatever order they completed.
 */
module Grouping {
  import opened Wrappers
  import opened Metadata

  predicate Distinct<T(==)>(s: seq<T>) {
    forall i, j :: 0 <= i < j < |s| ==> s[i] != s[j]
  }

  /** `r` is `s` with some elements dropped, the rest in their original order. */
  predicate Subsequence<T(==)>(r: seq<T>, s: seq<T>)
    decreases |s|
  {
    r == [] || (s != [] && ((r[0] == s[0] && Subsequence(r[1..], s[1..])) || Subsequence(r, s[1..])))
  }

  /** The records that were produced, in completion order (`if metadata: append`). */
  function Present(results: seq<Option<ImageMetadata>>): (r: seq<ImageMetadata>)
    ensures |r| <= |results|
    ensures forall m :: m in r <==> Some(m) in results
  {
    if results == [] then []
    else
      var last := results[|results| - 1];
      var prefix := results[..|results| - 1];
      assert results == prefix + [last];
      Present(prefix) + (if last.Some? then [last.value] else [])
  }

  /** The collection loop over the completed futures. */
  method CollectResults(results: seq<Option<ImageMetadata>>) returns (list: seq<ImageMetadata>)
    ensures list == Present(results)
  {
    list := [];
    for i := 0 to |results|
      invariant list == Present(results[..i])
    {
      assert results[..i + 1][..i] == results[..i];
      if results[i].Some? {
        list := list + [results[i].value];
      }
    }
    assert results[..|results|] == results;
  }

  /** The records of `s` whose identifier is `id`, in the order of `s`. */
  function Bucket(s: seq<ImageMetadata>, id: Identifier): (b: seq<ImageMetadata>)
    ensures |b| <= |s|
    ensures forall m :: m in b <==> m in s && GetIdentifier(m) == id
  {
    if s == [] then []
    else
      var last := s[|s| - 1];
      var prefix := s[..|s| - 1];
      assert s == prefix + [last];
      Bucket(prefix, id) + (if GetIdentifier(last) == id then [last] else [])
  }

  /** Some record of `s` has identifier `id`. */
  predicate Occurs(s: seq<ImageMetadata>, id: Identifier) {
    exists i :: 0 <= i < |s| && GetIdentifier(s[i]) == id
  }

  /** Two different records of `s` have identifier `id`. */
  predicate Shared(s: seq<ImageMetadata>, id: Identifier) {
    exists i, j :: 0 <= i < j < |s| && GetIdentifier(s[i]) == id && GetIdentifier(s[j]) == id
  }

  /** The identifiers of `s` in order of first appearance: the dictionary's insertion order. */
  function FirstSeen(s: seq<ImageMetadata>): (ids: seq<Identifier>)
    ensures Distinct(ids)
    ensures forall id :: id in ids <==> Occurs(s, id)
  {
    if s == [] then []
    else
      var prefix := s[..|s| - 1];
      var id := GetIdentifier(s[|s| - 1]);
      var seen := FirstSeen(prefix);
      assert forall k :: Occurs(s, k) <==> Occurs(prefix, k) || k == id by {
        forall k | Occurs(s, k) ensures Occurs(prefix, k) || k == id {
          var i :| 0 <= i < |s| && GetIdentifier(s[i]) == k;
          if i < |prefix| { assert prefix[i] == s[i]; }
        }
        forall k | Occurs(prefix, k) ensures Occurs(s, k) {
          var i :| 0 <= i < |prefix| && GetIdentifier(prefix[i]) == k;
          assert s[i] == prefix[i];
        }
      }
      if id in seen then seen else seen + [id]
  }

  /**
   * A Python dictionary from identifier to bucket, with its insertion order
   * (which decides the order in which groups are later shown and processed).
   */
  datatype Duplicates = Duplicates(order: seq<Identifier>, buckets: map<Identifier, seq<ImageMetadata>>) {

    predicate Valid() {
      && Distinct(order)
      && (forall k :: k in buckets ==> k in order)
      && (forall k :: k in order ==> k in buckets)
    }

    /** `duplicates.values()`, in iteration order. */
    function Groups(): (gs: seq<seq<ImageMetadata>>)
      requires Valid()
      ensures |gs| == |order|
      ensures forall i :: 0 <= i < |order| ==> gs[i] == buckets[order[i]]
    {
      seq(|order|, i requires 0 <= i < |order| => buckets[order[i]])
    }
  }

  /**
   * The grouping loop: an identifier not yet in `duplicates` gets an empty list,
   * then the metadata is appended to that identifier's list.
   */
  method GroupByIdentifier(records: seq<ImageMetadata>) returns (d: Duplicates)
    ensures d.Valid()
    ensures d.order == FirstSeen(records)
    ensures forall k :: k in d.buckets <==> Occurs(records, k)
    ensures forall k :: k in d.buckets ==> d.buckets[k] == Bucket(records, k)
  {
    var order: seq<Identifier> := [];
    var buckets: map<Identifier, seq<ImageMetadata>> := map[];
    for i := 0 to |records|
      invariant Tracks(order, buckets, records[..i])
    {
      var metadata := records[i];
      var identifier := GetIdentifier(metadata);
      TakeOneMore(records, i);
      if identifier !in buckets {
        GroupStepNew(order, buckets, records[..i], metadata);
        order := order + [identifier];
        buckets := buckets[identifier := []];
      } else {
        GroupStepKnown(order, buckets, records[..i], metadata);
      }
      buckets := buckets[identifier := buckets[identifier] + [metadata]];
    }
    assert records[..|records|] == records;
    d := Duplicates(order, buckets);
  }

  /** The grouping loop's invariant: the dictionary built so far from the records `s`. */
  ghost predicate Tracks(order: seq<Identifier>, buckets: map<Identifier, seq<ImageMetadata>>, s: seq<ImageMetadata>) {
    && order == FirstSeen(s)
    && (forall k :: k in buckets <==> k in order)
    && (forall k :: k in buckets ==> buckets[k] == Bucket(s, k))
  }

  /** Appending the metadata to the list of an identifier already in `duplicates` keeps `Tracks`. */
  lemma GroupStepKnown(order: seq<Identifier>, buckets: map<Identifier, seq<ImageMetadata>>, s: seq<ImageMetadata>, x: ImageMetadata)
    requires Tracks(order, buckets, s) && GetIdentifier(x) in buckets
    ensures var id := GetIdentifier(x);
      Tracks(order, buckets[id := buckets[id] + [x]], s + [x])
  {
    var id := GetIdentifier(x);
    var b' := buckets[id := buckets[id] + [x]];
    assert order == FirstSeen(s + [x]) by { OrderStep(order, buckets, s, x); }
    assert forall k :: k in b' <==> k in order;
    assert forall k :: k in b' ==> b'[k] == Bucket(s + [x], k) by { AppendKeepsBuckets(buckets, s, x); }
    TracksIntro(order, b', s + [x]);
  }

  /** The same for a new key: it is inserted with an empty bucket, then appended to. */
  lemma GroupStepNew(order: seq<Identifier>, buckets: map<Identifier, seq<ImageMetadata>>, s: seq<ImageMetadata>, x: ImageMetadata)
    requires Tracks(order, buckets, s) && GetIdentifier(x) !in buckets
    ensures var id := GetIdentifier(x);
      var b := buckets[id := []];
      Tracks(order + [id], b[id := b[id] + [x]], s + [x])
  {
    var id := GetIdentifier(x);
    var b := buckets[id := []];
    var o', b' := order + [id], b[id := b[id] + [x]];
    assert o' == FirstSeen(s + [x]) by { OrderStep(order, buckets, s, x); }
    assert forall k :: k in b' <==> k in o';
    assert forall k :: k in b' ==> b'[k] == Bucket(s + [x], k) by {
      assert b[id] == Bucket(s, id) by { OccursIffBucketNonEmpty(s, id); }
      AppendKeepsBuckets(b, s, x);
    }
    TracksIntro(o', b', s + [x]);
  }

  lemma TracksIntro(order: seq<Identifier>, buckets: map<Identifier, seq<ImageMetadata>>, s: seq<ImageMetadata>)
    requires order == FirstSeen(s)
    requires forall k :: k in buckets <==> k in order
    requires forall k :: k in buckets ==> buckets[k] == Bucket(s, k)
    ensures Tracks(order, buckets, s)
  {
  }

  /** A new identifier goes to the end of the insertion order; a known one leaves it alone. */
  lemma OrderStep(order: seq<Identifier>, buckets: map<Identifier, seq<ImageMetadata>>, s: seq<ImageMetadata>, x: ImageMetadata)
    requires Tracks(order, buckets, s)
    ensures (if GetIdentifier(x) in buckets then order else order + [GetIdentifier(x)]) == FirstSeen(s + [x])
  {
    FirstSeenSnoc(s, x);
  }

  /** Appending `x` to its own bucket, when every bucket matches `s`, makes every bucket match `s + [x]`. */
  lemma AppendKeepsBuckets(b: map<Identifier, seq<ImageMetadata>>, s: seq<ImageMetadata>, x: ImageMetadata)
    requires GetIdentifier(x) in b
    requires forall k :: k in b ==> b[k] == Bucket(s, k)
    ensures var id := GetIdentifier(x);
      forall k :: k in b[id := b[id] + [x]] ==> b[id := b[id] + [x]][k] == Bucket(s + [x], k)
  {
    var id := GetIdentifier(x);
    forall k | k in b
      ensures b[id := b[id] + [x]][k] == Bucket(s + [x], k)
    {
      BucketSnoc(s, x, k);
    }
  }

  /** The keys of `order` whose bucket holds more than one record, in the same order. */
  function KeepShared(order: seq<Identifier>, buckets: map<Identifier, seq<ImageMetadata>>): (r: seq<Identifier>)
    ensures forall k :: k in r <==> k in order && k in buckets && |buckets[k]| > 1
    ensures Distinct(order) ==> Distinct(r)
    ensures Subsequence(r, order)
  {
    if order == [] then []
    else
      var rest := KeepShared(order[1..], buckets);
      var k := order[0];
      assert forall j :: k in order[1..] <== 0 <= j < |order[1..]| && order[1..][j] == k;
      if k in buckets && |buckets[k]| > 1 then [k] + rest else rest
  }

  /** `{k: v for k, v in duplicates.items() if len(v) > 1}`. */
  function FilterDuplicates(d: Duplicates): (r: Duplicates)
    requires d.Valid()
    ensures r.Valid()
    ensures forall k :: k in r.buckets <==> k in d.buckets && |d.buckets[k]| > 1
    ensures forall k :: k in r.buckets ==> r.buckets[k] == d.buckets[k]
    ensures Subsequence(r.order, d.order)
  {
    Duplicates(KeepShared(d.order, d.buckets), map k | k in d.buckets && |d.buckets[k]| > 1 :: d.buckets[k])
  }

  lemma TakeOneMore<T>(s: seq<T>, i: nat)
    requires i < |s|
    ensures s[..i + 1] == s[..i] + [s[i]]
  {
  }

  lemma BucketSnoc(s: seq<ImageMetadata>, x: ImageMetadata, id: Identifier)
    ensures Bucket(s + [x], id) == Bucket(s, id) + (if GetIdentifier(x) == id then [x] else [])
  {
    assert (s + [x])[..|s|] == s;
  }

  lemma FirstSeenSnoc(s: seq<ImageMetadata>, x: ImageMetadata)
    ensures FirstSeen(s + [x]) == if GetIdentifier(x) in FirstSeen(s) then FirstSeen(s) else FirstSeen(s) + [GetIdentifier(x)]
  {
    assert (s + [x])[..|s|] == s;
  }

  lemma OccursIffBucketNonEmpty(s: seq<ImageMetadata>, id: Identifier)
    ensures Occurs(s, id) <==> |Bucket(s, id)| >= 1
  {
    if Occurs(s, id) {
      var i :| 0 <= i < |s| && GetIdentifier(s[i]) == id;
      assert s[i] in Bucket(s, id);
    }
    if |Bucket(s, id)| >= 1 {
      var m := Bucket(s, id)[0];
      assert m in s;
      var i :| 0 <= i < |s| && s[i] == m;
    }
  }

  lemma SharedSnoc(p: seq<ImageMetadata>, x: ImageMetadata, id: Identifier)
    ensures Shared(p + [x], id) <==> Shared(p, id) || (GetIdentifier(x) == id && Occurs(p, id))
  {
    var s := p + [x];
    if Shared(s, id) {
      var i, j :| 0 <= i < j < |s| && GetIdentifier(s[i]) == id && GetIdentifier(s[j]) == id;
      assert s[i] == p[i];
      if j < |p| {
        assert s[j] == p[j];
      } else {
        assert s[j] == x;
      }
    }
    if Shared(p, id) {
      var i, j :| 0 <= i < j < |p| && GetIdentifier(p[i]) == id && GetIdentifier(p[j]) == id;
      assert s[i] == p[i] && s[j] == p[j];
    }
    if GetIdentifier(x) == id && Occurs(p, id) {
      var i :| 0 <= i < |p| && GetIdentifier(p[i]) == id;
      assert s[i] == p[i] && s[|p|] == x;
    }
  }

  /** A bucket has at least two members exactly when two different records share its identifier. */
  lemma {:induction false} BucketSizeAtLeastTwo(s: seq<ImageMetadata>, id: Identifier)
    ensures |Bucket(s, id)| >= 2 <==> Shared(s, id)
  {
    if s != [] {
      var p, x := s[..|s| - 1], s[|s| - 1];
      assert s == p + [x];
      BucketSizeAtLeastTwo(p, id);
      BucketSnoc(p, x, id);
      SharedSnoc(p, x, id);
      OccursIffBucketNonEmpty(p, id);
    }
  }

  /**
   * The whole grouping step: records of the completed futures in, the
   * duplicate dictionary out. Its keys are exactly the identifiers shared by at
   * least two records; each bucket holds exactly the records with that
   * identifier, in completion order; so no bucket is a singleton.
   */
  method FindDuplicates(results: seq<Option<ImageMetadata>>) returns (d: Duplicates)
    ensures d.Valid()
    ensures forall k :: k in d.buckets <==> Shared(Present(results), k)
    ensures forall k :: k in d.buckets ==> d.buckets[k] == Bucket(Present(results), k)
    ensures forall k :: k in d.buckets ==> |d.buckets[k]| >= 2
    ensures Subsequence(d.order, FirstSeen(Present(results)))
  {
    var records := CollectResults(results);
    var all := GroupByIdentifier(records);
    d := FilterDuplicates(all);
    forall k ensures k in d.buckets <==> Shared(records, k) {
      BucketSizeAtLeastTwo(records, k);
      if Shared(records, k) {
        var i, j :| 0 <= i < j < |records| && GetIdentifier(records[i]) == k && GetIdentifier(records[j]) == k;
        assert Occurs(records, k);
      }
    }
  }

  /**
   * The buckets partition the duplicated records: a record with a shared
   * identifier lies in that identifier's bucket and in no other, and two
   * such records share a bucket exactly when they are duplicates field by field.
   */
  lemma BucketsPartition(s: seq<ImageMetadata>, a: ImageMetadata, b: ImageMetadata, k: Identifier)
    requires a in s && b in s
    ensures a in Bucket(s, k) <==> GetIdentifier(a) == k
    ensures a in Bucket(s, k) && b in Bucket(s, k) ==> Duplicate(a, b)
    ensures Duplicate(a, b) ==> (a in Bucket(s, k) <==> b in Bucket(s, k))
  {
    IdentifierEqualIffDuplicate(a, b);
  }
}
