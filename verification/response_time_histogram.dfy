/** The response-time histogram: successful calls sorted into five
    fixed duration buckets. */
module ResponseTimeHistogram {

  import opened Wrappers
  import opened Types

  /** One bucket: its label, its inclusive bounds (`None` for an open
      upper end) and how many durations fell into it. */
  datatype Bucket = Bucket(range: string, min: int, max: Option<int>, count: nat)

  const BucketCount: nat := 5

  /** The bucket table, all counts zero. */
  const EmptyBuckets: seq<Bucket> := [
    Bucket("0-100ms", 0, Some(100), 0),
    Bucket("101-250ms", 101, Some(250), 0),
    Bucket("251-500ms", 251, Some(500), 0),
    Bucket("501-1000ms", 501, Some(1000), 0),
    Bucket(">1000ms", 1001, None, 0)
  ]

  predicate InBucket(d: int, b: Bucket) {
    d >= b.min && (b.max.None? || d <= b.max.value)
  }

  function Duration(r: CallRecord): int {
    r.endTime - r.startTime
  }

  /** The first bucket whose range holds `d`, if any. */
  function BucketIndex(d: int): (k: Option<nat>)
    ensures k.Some? ==> k.value < BucketCount && InBucket(d, EmptyBuckets[k.value])
    ensures k.Some? ==> forall j :: 0 <= j < k.value ==> !InBucket(d, EmptyBuckets[j])
    ensures k.None? ==> forall j :: 0 <= j < BucketCount ==> !InBucket(d, EmptyBuckets[j])
  {
    if d < 0 then None
    else if d <= 100 then Some(0)
    else if d <= 250 then Some(1)
    else if d <= 500 then Some(2)
    else if d <= 1000 then Some(3)
    else Some(4)
  }

  /** The buckets cover every duration from 0 up and nothing below, and
      never overlap: a duration lies in exactly one bucket or, when
      negative, in none. */
  lemma BucketsPartition(d: int)
    ensures d >= 0 <==> BucketIndex(d).Some?
    ensures forall j :: 0 <= j < BucketCount && InBucket(d, EmptyBuckets[j]) ==> BucketIndex(d) == Some(j)
  {
  }

  /** How many records of `rs` land in bucket `k`: successful ones whose
      duration falls in its range. */
  function CountIn(rs: seq<CallRecord>, k: nat): nat {
    if |rs| == 0 then 0
    else
      var r := rs[|rs| - 1];
      CountIn(rs[..|rs| - 1], k) + (if r.isSuccess && BucketIndex(Duration(r)) == Some(k) then 1 else 0)
  }

  /** The number of successful records with a duration of at least 0. */
  function Countable(rs: seq<CallRecord>): (n: nat)
    ensures n <= |rs|
  {
    if |rs| == 0 then 0
    else
      var r := rs[|rs| - 1];
      Countable(rs[..|rs| - 1]) + (if r.isSuccess && Duration(r) >= 0 then 1 else 0)
  }

  function SumCounts(bs: seq<Bucket>): nat {
    if |bs| == 0 then 0 else SumCounts(bs[..|bs| - 1]) + bs[|bs| - 1].count
  }

  /** The buckets for a list of records: the bucket table with each count
      set to the number of records that land there. */
  function Histogram(rs: seq<CallRecord>): (bs: seq<Bucket>)
    ensures |bs| == BucketCount
    ensures forall k :: 0 <= k < BucketCount ==>
              bs[k] == EmptyBuckets[k].(count := CountIn(rs, k))
  {
    seq(BucketCount, k requires 0 <= k < BucketCount => EmptyBuckets[k].(count := CountIn(rs, k)))
  }

  /** A list of buckets with the table's labels and bounds. */
  predicate Shaped(bs: seq<Bucket>) {
    |bs| == BucketCount && forall m :: 0 <= m < BucketCount ==> bs[m].(count := 0) == EmptyBuckets[m]
  }

  /** Adds one to bucket `k`, or changes nothing when there is none. */
  function Bump(bs: seq<Bucket>, k: Option<nat>): seq<Bucket> {
    if k.Some? && k.value < |bs| then bs[k.value := bs[k.value].(count := bs[k.value].count + 1)] else bs
  }

  /** Appending one record bumps the first bucket holding its duration
      when it succeeded, and changes nothing when it failed. */
  lemma HistogramSnoc(rs: seq<CallRecord>, r: CallRecord)
    ensures Histogram(rs + [r]) ==
              if r.isSuccess then Bump(Histogram(rs), BucketIndex(Duration(r))) else Histogram(rs)
  {
    assert (rs + [r])[..|rs|] == rs;
  }

  /** The component's inner loop: scan the buckets in order and count the
      duration in the first that holds it. */
  method CountInFirstBucket(buckets: seq<Bucket>, duration: int) returns (updated: seq<Bucket>)
    requires Shaped(buckets)
    ensures updated == Bump(buckets, BucketIndex(duration))
  {
    updated := buckets;
    var j := 0;
    while j < |buckets|
      invariant 0 <= j <= BucketCount
      invariant forall m :: 0 <= m < j ==> !InBucket(duration, EmptyBuckets[m])
    {
      if duration >= buckets[j].min && (buckets[j].max.None? || duration <= buckets[j].max.value) {
        assert InBucket(duration, EmptyBuckets[j]);
        updated := buckets[j := buckets[j].(count := buckets[j].count + 1)];
        return;
      }
      j := j + 1;
    }
  }

  /** The component's loop: for each successful record, count its
      duration in the first bucket that holds it. */
  method CountBuckets(callRecords: seq<CallRecord>) returns (buckets: seq<Bucket>)
    ensures buckets == Histogram(callRecords)
  {
    buckets := EmptyBuckets;
    var i := 0;
    while i < |callRecords|
      invariant 0 <= i <= |callRecords|
      invariant buckets == Histogram(callRecords[..i])
    {
      var record := callRecords[i];
      if record.isSuccess {
        var duration := record.endTime - record.startTime;
        buckets := CountInFirstBucket(buckets, duration);
      }
      HistogramSnoc(callRecords[..i], record);
      assert callRecords[..i + 1] == callRecords[..i] + [record];
      i := i + 1;
    }
    assert callRecords[..i] == callRecords;
  }

  /** A failed record changes no count. */
  lemma FailedRecordIsIgnored(rs: seq<CallRecord>, r: CallRecord)
    requires !r.isSuccess
    ensures Histogram(rs + [r]) == Histogram(rs)
  {
    assert (rs + [r])[..|rs|] == rs;
  }

  /** A successful record with a duration of at least 0 adds exactly one
      to the first bucket holding it and leaves the rest alone; a
      negative duration adds to none. */
  lemma SuccessfulRecordCountsOnce(rs: seq<CallRecord>, r: CallRecord, k: nat)
    requires r.isSuccess && k < BucketCount
    ensures Histogram(rs + [r])[k].count ==
              Histogram(rs)[k].count + (if BucketIndex(Duration(r)) == Some(k) then 1 else 0)
    ensures Duration(r) < 0 ==> Histogram(rs + [r]) == Histogram(rs)
  {
    assert (rs + [r])[..|rs|] == rs;
  }

  lemma {:induction false} CountsAddUp(rs: seq<CallRecord>)
    ensures CountIn(rs, 0) + CountIn(rs, 1) + CountIn(rs, 2) + CountIn(rs, 3) + CountIn(rs, 4) == Countable(rs)
  {
    if |rs| > 0 {
      CountsAddUp(rs[..|rs| - 1]);
      var r := rs[|rs| - 1];
      BucketsPartition(Duration(r));
    }
  }

  lemma SumFive(bs: seq<Bucket>)
    requires |bs| == BucketCount
    ensures SumCounts(bs) == bs[0].count + bs[1].count + bs[2].count + bs[3].count + bs[4].count
  {
    assert bs[..4][..3] == bs[..3] && bs[..3][..2] == bs[..2] && bs[..2][..1] == bs[..1];
    assert SumCounts(bs[..1]) == bs[0].count by {
      assert bs[..1][..0] == [];
    }
    assert SumCounts(bs[..2]) == SumCounts(bs[..1]) + bs[1].count;
    assert SumCounts(bs[..3]) == SumCounts(bs[..2]) + bs[2].count;
    assert SumCounts(bs[..4]) == SumCounts(bs[..3]) + bs[3].count;
    assert SumCounts(bs) == SumCounts(bs[..4]) + bs[4].count;
  }

  /** The counts add up to the number of successful records with a
      non-negative duration, so never to more than there are records. */
  lemma HistogramTotal(rs: seq<CallRecord>)
    ensures SumCounts(Histogram(rs)) == Countable(rs) <= |rs|
  {
    CountsAddUp(rs);
    SumFive(Histogram(rs));
  }
}
