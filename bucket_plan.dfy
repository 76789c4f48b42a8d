/**
 * How `SolvingManager::run` splits the argument indices [1, argc) into one
 * contiguous bucket per pair of threads: `getArgsPerOneBucket` picks the
 * bucket size, every bucket but the last takes that many arguments, and the
 * last takes whatever remains.
 */
module BucketPlan {

  /** A bucket: the argv indices [start, start + amount); empty when amount <= 0. */
  datatype Bucket = Bucket(start: int, amount: int)

  /** Every index a bucket reads lies in argv[0..argc). */
  predicate InArgv(argc: int, b: Bucket) {
    b.amount > 0 ==> 0 <= b.start && b.start + b.amount <= argc
  }

  function Max(x: int, y: int): int {
    if x < y then y else x
  }

  function Min(x: int, y: int): int {
    if x < y then x else y
  }

  /**
   * getArgsPerOneBucket: max(3, argc / (numOfThreads / 2)), rounded down to a
   * multiple of three.  It is the largest multiple of three not above that
   * bound, and at least 3.
   */
  function ArgsPerOneBucket(argc: int, numOfThreads: int): (r: int)
    requires 0 <= argc && 2 <= numOfThreads
    ensures r % 3 == 0 && 3 <= r
    ensures r <= Max(3, argc / (numOfThreads / 2)) < r + 3
  {
    var bound := Max(3, argc / (numOfThreads / 2));
    bound - bound % 3
  }

  /** getArgsPerOneBucket with its decrement loop. */
  method GetArgsPerOneBucket(argc: int, numOfThreads: int) returns (argsPerOneParser: int)
    requires 0 <= argc && 2 <= numOfThreads
    ensures argsPerOneParser == ArgsPerOneBucket(argc, numOfThreads)
  {
    argsPerOneParser := Max(3, argc / (numOfThreads / 2));
    ghost var bound := argsPerOneParser;
    while argsPerOneParser % 3 != 0
      invariant bound - bound % 3 <= argsPerOneParser <= bound
      decreases argsPerOneParser
    {
      argsPerOneParser := argsPerOneParser - 1;
    }
  }

  // ---------------------------------------------------------------------
  // The loop of `run` as written

  /**
   * The buckets `run` creates: one for each i with i * 2 < numOfThreads,
   * starting at 1 + i * per; the one with (i + 1) * 2 == numOfThreads takes
   * everything up to argc, every other one takes `per` arguments.
   */
  function BucketsAsWritten(argc: int, numOfThreads: int, per: int): seq<Bucket>
    requires 0 <= numOfThreads
  {
    seq((numOfThreads + 1) / 2,
        i => var start := 1 + i * per;
             Bucket(start, if (i + 1) * 2 == numOfThreads then argc - start else per))
  }

  /**
   * With an odd thread count the loop makes one bucket more than there are
   * queues (numOfThreads / 2 of them), so the last iteration indexes past
   * the queue vector, and no bucket takes the remaining arguments.
   */
  lemma OddThreadCountOverrunsQueues(argc: int, numOfThreads: int, per: int)
    requires 0 <= numOfThreads && numOfThreads % 2 == 1
    ensures |BucketsAsWritten(argc, numOfThreads, per)| == numOfThreads / 2 + 1
    ensures forall i :: 0 <= i < |BucketsAsWritten(argc, numOfThreads, per)| ==>
              BucketsAsWritten(argc, numOfThreads, per)[i].amount == per
  {
    var bs := BucketsAsWritten(argc, numOfThreads, per);
    forall i | 0 <= i < |bs|
      ensures bs[i].amount == per
    {
      assert (i + 1) * 2 != numOfThreads;
    }
  }

  /**
   * Three arguments (argc = 4) and eight threads: the bucket size is 3 and
   * the second bucket is [4, 7), past the end of argv.
   */
  lemma BucketsPastArgcExample()
    ensures ArgsPerOneBucket(4, 8) == 3
    ensures BucketsAsWritten(4, 8, 3)[1] == Bucket(4, 3)
    ensures !InArgv(4, BucketsAsWritten(4, 8, 3)[1])
  {
  }

  lemma MultiplyMonotonic(x: int, y: int, per: int)
    requires 0 <= x <= y && 0 <= per
    ensures x * per <= y * per
  {
  }

  lemma MultiplySucc(i: int, per: int)
    ensures (i + 1) * per == i * per + per
  {
  }

  /**
   * With an even thread count the buckets as written stay inside argv
   * exactly when the first numOfThreads / 2 - 1 buckets of `per` arguments
   * fit in the argc - 1 arguments.
   */
  lemma AsWrittenInArgvIff(argc: int, numOfThreads: int, per: int)
    requires 1 <= argc && 2 <= numOfThreads && numOfThreads % 2 == 0 && 3 <= per
    ensures (forall i :: 0 <= i < |BucketsAsWritten(argc, numOfThreads, per)| ==>
               InArgv(argc, BucketsAsWritten(argc, numOfThreads, per)[i]))
            <==> (numOfThreads / 2 - 1) * per <= argc - 1
  {
    var bs := BucketsAsWritten(argc, numOfThreads, per);
    var last := numOfThreads / 2 - 1;
    assert |bs| == last + 1;
    if last * per <= argc - 1 {
      forall i | 0 <= i < |bs|
        ensures InArgv(argc, bs[i])
      {
        if i < last {
          MultiplyMonotonic(i + 1, last, per);
          MultiplySucc(i, per);
        }
      }
    } else {
      assert last >= 1;
      MultiplySucc(last - 1, per);
      assert !InArgv(argc, bs[last - 1]);
    }
  }

  // ---------------------------------------------------------------------
  // The buckets corrected

  /** Where bucket i starts once the start is kept inside argv. */
  function BucketStart(argc: int, per: int, i: int): int {
    Min(1 + i * per, argc)
  }

  /**
   * One bucket per queue (numOfThreads / 2 of them), each start kept inside
   * argv; the last bucket takes everything up to argc, the others `per`
   * arguments or what is left before argc, whichever is fewer.
   */
  function Buckets(argc: int, numOfThreads: int, per: int): seq<Bucket>
    requires 0 <= numOfThreads
  {
    seq(numOfThreads / 2,
        i => var start := BucketStart(argc, per, i);
             Bucket(start, if i + 1 == numOfThreads / 2 then argc - start else Min(per, argc - start)))
  }

  /** Bucket i of the corrected plan, as the loop of `run` computes it. */
  lemma BucketAt(argc: int, numOfThreads: int, per: int, i: int)
    requires 0 <= numOfThreads && 0 <= i < numOfThreads / 2
    ensures var start := Min(1 + i * per, argc);
            Buckets(argc, numOfThreads, per)[i]
              == Bucket(start, if i + 1 == numOfThreads / 2 then argc - start else Min(per, argc - start))
  {
  }

  /**
   * The corrected buckets stay inside [1, argc): one per queue, the first
   * starting at 1, the last ending at argc, and every bucket that does not
   * start at argc starting on a triple boundary.
   */
  lemma BucketsPartition(argc: int, numOfThreads: int, per: int)
    requires 1 <= argc && 2 <= numOfThreads && 3 <= per && per % 3 == 0
    ensures var bs := Buckets(argc, numOfThreads, per);
            && |bs| == numOfThreads / 2
            && bs[0].start == 1
            && (forall i :: 0 <= i < |bs| ==>
                  (1 <= bs[i].start && 0 <= bs[i].amount && bs[i].start + bs[i].amount <= argc))
            && bs[|bs| - 1].start + bs[|bs| - 1].amount == argc
            && (forall i :: 0 <= i < |bs| ==> bs[i].start == argc || (bs[i].start - 1) % 3 == 0)
  {
    var bs := Buckets(argc, numOfThreads, per);
    forall i | 0 <= i < |bs|
      ensures 1 <= bs[i].start
      ensures bs[i].start == argc || (bs[i].start - 1) % 3 == 0
    {
      MultiplyMonotonic(0, i, per);
      StartOnTripleBoundary(i, per);
    }
  }

  /** Each corrected bucket starts where the previous one ends. */
  lemma BucketsContiguous(argc: int, numOfThreads: int, per: int, i: int)
    requires 1 <= argc && 2 <= numOfThreads && 3 <= per
    requires 0 <= i && i + 1 < numOfThreads / 2
    ensures Buckets(argc, numOfThreads, per)[i].start + Buckets(argc, numOfThreads, per)[i].amount
            == Buckets(argc, numOfThreads, per)[i + 1].start
  {
    MultiplySucc(i, per);
  }

  lemma StartOnTripleBoundary(i: int, per: int)
    requires 0 <= i && per % 3 == 0
    ensures (i * per) % 3 == 0
  {
    var q := per / 3;
    assert per == 3 * q;
    assert i * per == 3 * (i * q);
  }

  /**
   * For an even thread count and buckets that fit, the corrected buckets are
   * exactly the ones `run` creates.
   */
  lemma BucketsAgreeWhenInArgv(argc: int, numOfThreads: int, per: int)
    requires 1 <= argc && 2 <= numOfThreads && numOfThreads % 2 == 0 && 3 <= per
    requires (numOfThreads / 2 - 1) * per <= argc - 1
    ensures Buckets(argc, numOfThreads, per) == BucketsAsWritten(argc, numOfThreads, per)
  {
    var bs, ws := Buckets(argc, numOfThreads, per), BucketsAsWritten(argc, numOfThreads, per);
    var last := numOfThreads / 2 - 1;
    forall i | 0 <= i < |bs|
      ensures bs[i] == ws[i]
    {
      MultiplyMonotonic(i, last, per);
      if i < last {
        MultiplyMonotonic(i + 1, last, per);
        MultiplySucc(i, per);
      }
    }
  }
}
