/** Least-significant-digit radix sort of fixed-length integer tuples
    (RadixSorter in trinkets/sort_image.py). A digit is one whole channel;
    channels are visited from the last to the first, and each pass drops the
    items into max_value + 1 buckets that are then concatenated in order. */
module RadixSort {
  import opened Results
  import opened Pixels

  /** The max_value a RadixSorter gets when none is given: 8-bit channels. */
  const DefaultMaxValue: int := 255

  /** The IndexError the sorter raises when an item lacks a channel or a
      channel value has no bucket (it exceeds max_value). */
  datatype SortError = IndexOutOfRange

  // ----------------------------------------------------------------------
  // Per-item conditions

  /** Every item has at least n channels. */
  predicate HasChannels(s: seq<Pixel>, n: nat) {
    forall p :: p in s ==> n <= |p|
  }

  /** Channel c of every item exists and names one of the buckets 0..maxValue. */
  predicate KeysInRange(s: seq<Pixel>, c: nat, maxValue: int) {
    forall p :: p in s ==> c < |p| && 0 <= p[c] <= maxValue
  }

  /** KeysInRange holds for every channel k..n-1. */
  predicate KeysInRangeFrom(s: seq<Pixel>, k: nat, n: nat, maxValue: int) {
    forall c :: k <= c < n ==> KeysInRange(s, c, maxValue)
  }

  /** No channel below n is negative. A value in [-(maxValue + 1), -1] would
      pick a bucket counted from the end of the bucket list; a value below
      that has no bucket at all. */
  predicate NonNegativeKeys(s: seq<Pixel>, n: nat) {
    forall p, c :: p in s && 0 <= c < n && c < |p| ==> 0 <= p[c]
  }

  // ----------------------------------------------------------------------
  // One distribution pass, as a reference definition

  /** The items of s whose channel c equals v, in their order in s: what
      bucket v holds after one distribution pass over s. */
  function Bucket(s: seq<Pixel>, c: nat, v: int): seq<Pixel> {
    if |s| == 0 then []
    else
      var last := s[|s| - 1];
      Bucket(s[..|s| - 1], c, v) + (if c < |last| && last[c] == v then [last] else [])
  }

  /** Buckets lo..hi-1 of s concatenated in increasing bucket order. */
  function Buckets(s: seq<Pixel>, c: nat, lo: int, hi: int): seq<Pixel>
    decreases hi - lo
  {
    if hi <= lo then [] else Buckets(s, c, lo, hi - 1) + Bucket(s, c, hi - 1)
  }

  /** One pass over channel c: every item goes to bucket item[c], and the
      buckets 0..maxValue are concatenated in index order. */
  function Pass(s: seq<Pixel>, c: nat, maxValue: int): seq<Pixel> {
    Buckets(s, c, 0, maxValue + 1)
  }

  /** Bucket v holds exactly the items of s whose channel c is v. */
  lemma {:induction false} BucketMembers(s: seq<Pixel>, c: nat, v: int)
    ensures forall p :: p in Bucket(s, c, v) <==> p in s && c < |p| && p[c] == v
  {
    if |s| > 0 {
      var init := s[..|s| - 1];
      BucketMembers(init, c, v);
      assert s == init + [s[|s| - 1]];
    }
  }

  /** Buckets lo..hi-1 hold exactly the items of s whose channel c lies in [lo, hi). */
  lemma {:induction false} BucketsMembers(s: seq<Pixel>, c: nat, lo: int, hi: int)
    ensures forall p :: p in Buckets(s, c, lo, hi) <==> p in s && c < |p| && lo <= p[c] < hi
    decreases hi - lo
  {
    if lo < hi {
      BucketsMembers(s, c, lo, hi - 1);
      BucketMembers(s, c, hi - 1);
    }
  }

  // ----------------------------------------------------------------------
  // A pass is a permutation

  /** Appending one item to the input adds it to exactly the bucket range
      that covers its key. */
  lemma {:induction false} BucketsSnoc(s: seq<Pixel>, x: Pixel, c: nat, lo: int, hi: int)
    requires HasChannels(s + [x], c + 1)
    ensures multiset(Buckets(s + [x], c, lo, hi))
         == multiset(Buckets(s, c, lo, hi)) + (if lo <= x[c] < hi then multiset{x} else multiset{})
    decreases hi - lo
  {
    if lo < hi {
      BucketsSnoc(s, x, c, lo, hi - 1);
      assert (s + [x])[..|s + [x]| - 1] == s;
    }
  }

  /** No items, no bucket contents. */
  lemma {:induction false} BucketsOfEmpty(c: nat, lo: int, hi: int)
    ensures Buckets([], c, lo, hi) == []
    decreases hi - lo
  {
    if lo < hi {
      BucketsOfEmpty(c, lo, hi - 1);
    }
  }

  /** When every key lies in [lo, hi), the buckets lo..hi-1 hold every item. */
  lemma {:induction false} BucketsPermute(s: seq<Pixel>, c: nat, lo: int, hi: int)
    requires forall p :: p in s ==> c < |p| && lo <= p[c] < hi
    ensures multiset(Buckets(s, c, lo, hi)) == multiset(s)
  {
    if |s| == 0 {
      BucketsOfEmpty(c, lo, hi);
    } else {
      var init, last := s[..|s| - 1], s[|s| - 1];
      assert s == init + [last];
      BucketsPermute(init, c, lo, hi);
      BucketsSnoc(init, last, c, lo, hi);
    }
  }

  /** A pass neither loses, duplicates nor invents items. */
  lemma PassPermutes(s: seq<Pixel>, c: nat, maxValue: int)
    requires KeysInRange(s, c, maxValue)
    ensures multiset(Pass(s, c, maxValue)) == multiset(s)
  {
    BucketsPermute(s, c, 0, maxValue + 1);
  }

  // ----------------------------------------------------------------------
  // A pass is stable

  /** Selecting a bucket distributes over concatenation. */
  lemma {:induction false} BucketOfConcat(a: seq<Pixel>, b: seq<Pixel>, c: nat, v: int)
    ensures Bucket(a + b, c, v) == Bucket(a, c, v) + Bucket(b, c, v)
  {
    if |b| == 0 {
      assert a + b == a;
    } else {
      var init := b[..|b| - 1];
      assert (a + b)[..|a + b| - 1] == a + init;
      BucketOfConcat(a, init, c, v);
    }
  }

  /** Selecting bucket v from bucket w gives bucket v when v == w and nothing otherwise. */
  lemma {:induction false} BucketOfBucket(s: seq<Pixel>, c: nat, v: int, w: int)
    ensures Bucket(Bucket(s, c, w), c, v) == if v == w then Bucket(s, c, w) else []
  {
    if |s| > 0 {
      var init, last := s[..|s| - 1], s[|s| - 1];
      BucketOfBucket(init, c, v, w);
      var tail := if c < |last| && last[c] == w then [last] else [];
      BucketOfConcat(Bucket(init, c, w), tail, c, v);
      if c < |last| && last[c] == w {
        assert Bucket(tail, c, v) == Bucket([], c, v) + (if last[c] == v then [last] else []);
      }
    }
  }

  /** Selecting bucket v from buckets lo..hi-1 gives bucket v when v is in range. */
  lemma {:induction false} BucketOfBuckets(s: seq<Pixel>, c: nat, lo: int, hi: int, v: int)
    ensures Bucket(Buckets(s, c, lo, hi), c, v) == if lo <= v < hi then Bucket(s, c, v) else []
    decreases hi - lo
  {
    if lo < hi {
      BucketOfBuckets(s, c, lo, hi - 1, v);
      BucketOfConcat(Buckets(s, c, lo, hi - 1), Bucket(s, c, hi - 1), c, v);
      BucketOfBucket(s, c, v, hi - 1);
    }
  }

  /** A key no item has selects nothing. */
  lemma BucketOfAbsentKey(s: seq<Pixel>, c: nat, v: int)
    requires forall p :: p in s && c < |p| ==> p[c] != v
    ensures Bucket(s, c, v) == []
  {
    BucketMembers(s, c, v);
    if Bucket(s, c, v) != [] {
      assert Bucket(s, c, v)[0] in Bucket(s, c, v);
    }
  }

  /** Stability of a pass: for every key v, the items whose channel c equals
      v come out in exactly the order they went in. */
  lemma PassStable(s: seq<Pixel>, c: nat, maxValue: int)
    requires KeysInRange(s, c, maxValue)
    ensures forall v :: Bucket(Pass(s, c, maxValue), c, v) == Bucket(s, c, v)
  {
    forall v
      ensures Bucket(Pass(s, c, maxValue), c, v) == Bucket(s, c, v)
    {
      BucketOfBuckets(s, c, 0, maxValue + 1, v);
      if !(0 <= v <= maxValue) {
        BucketOfAbsentKey(s, c, v);
      }
    }
  }

  // ----------------------------------------------------------------------
  // Lexicographic order on a suffix of the channels

  /** a sorts no later than b on channels k..n-1, the lowest channel deciding. */
  predicate LexLeq(a: Pixel, b: Pixel, k: nat, n: nat)
    decreases n - k
  {
    k >= n
    || (k < |a| && k < |b| && (a[k] < b[k] || (a[k] == b[k] && LexLeq(a, b, k + 1, n))))
  }

  /** Every earlier item sorts no later than every later one on channels k..n-1. */
  predicate SortedFrom(s: seq<Pixel>, k: nat, n: nat) {
    forall i, j :: 0 <= i < j < |s| ==> LexLeq(s[i], s[j], k, n)
  }

  /** Two tuples of length n that each sort no later than the other on
      channels k..n-1 agree on those channels. */
  lemma {:induction false} LexAntisymmetric(a: Pixel, b: Pixel, k: nat, n: nat)
    requires k <= n == |a| == |b|
    requires LexLeq(a, b, k, n) && LexLeq(b, a, k, n)
    ensures a[k..] == b[k..]
    decreases n - k
  {
    if k < n {
      LexAntisymmetric(a, b, k + 1, n);
      assert a[k..] == [a[k]] + a[k + 1..];
      assert b[k..] == [b[k]] + b[k + 1..];
    }
  }

  /** Two sorted runs, the first entirely before the second, make a sorted run. */
  lemma SortedConcat(a: seq<Pixel>, b: seq<Pixel>, k: nat, n: nat)
    requires SortedFrom(a, k, n) && SortedFrom(b, k, n)
    requires forall x, y :: x in a && y in b ==> LexLeq(x, y, k, n)
    ensures SortedFrom(a + b, k, n)
  {
    var s := a + b;
    forall i, j | 0 <= i < j < |s|
      ensures LexLeq(s[i], s[j], k, n)
    {
      if j < |a| {
        assert s[i] == a[i] && s[j] == a[j];
      } else if i >= |a| {
        assert s[i] == b[i - |a|] && s[j] == b[j - |a|];
      } else {
        assert s[i] in a && s[j] in b;
      }
    }
  }

  /** A bucket taken from a run sorted on channels c+1..n-1 is sorted on c..n-1:
      it keeps the run's order, and all its items share channel c. */
  lemma {:induction false} BucketSorted(s: seq<Pixel>, c: nat, n: nat, v: int)
    requires c < n && HasChannels(s, n) && SortedFrom(s, c + 1, n)
    ensures SortedFrom(Bucket(s, c, v), c, n)
  {
    if |s| > 0 {
      var init, last := s[..|s| - 1], s[|s| - 1];
      assert SortedFrom(init, c + 1, n) by {
        forall i, j | 0 <= i < j < |init|
          ensures LexLeq(init[i], init[j], c + 1, n)
        {
          assert init[i] == s[i] && init[j] == s[j];
        }
      }
      BucketSorted(init, c, n, v);
      var b := Bucket(init, c, v);
      if last[c] == v {
        BucketMembers(init, c, v);
        forall x, y | x in b && y in [last]
          ensures LexLeq(x, y, c, n)
        {
          var m :| 0 <= m < |init| && init[m] == x;
          assert s[m] == x && s[|s| - 1] == y;
          assert LexLeq(x, y, c + 1, n);
        }
        SortedConcat(b, [last], c, n);
      }
    }
  }

  /** Buckets lo..hi-1 of a run sorted on channels c+1..n-1 form a run sorted on c..n-1. */
  lemma {:induction false} BucketsSorted(s: seq<Pixel>, c: nat, n: nat, lo: int, hi: int)
    requires c < n && HasChannels(s, n) && SortedFrom(s, c + 1, n)
    ensures SortedFrom(Buckets(s, c, lo, hi), c, n)
    decreases hi - lo
  {
    if lo < hi {
      var a, b := Buckets(s, c, lo, hi - 1), Bucket(s, c, hi - 1);
      BucketsSorted(s, c, n, lo, hi - 1);
      BucketSorted(s, c, n, hi - 1);
      BucketsMembers(s, c, lo, hi - 1);
      BucketMembers(s, c, hi - 1);
      forall x, y | x in a && y in b
        ensures LexLeq(x, y, c, n)
      {
        assert x[c] < y[c];
      }
      SortedConcat(a, b, c, n);
    }
  }

  /** The pass over channel c extends the sorted suffix of channels from c+1 to c. */
  lemma PassSorts(s: seq<Pixel>, c: nat, n: nat, maxValue: int)
    requires c < n && HasChannels(s, n) && SortedFrom(s, c + 1, n)
    ensures SortedFrom(Pass(s, c, maxValue), c, n)
  {
    BucketsSorted(s, c, n, 0, maxValue + 1);
  }

  // ----------------------------------------------------------------------
  // The whole sort, as a reference definition

  /** The items after the passes over channels n-1, n-2, ..., k: the same
      items, sorted on the channel suffix k..n-1. */
  function SortFrom(s: seq<Pixel>, k: nat, n: nat, maxValue: int): (r: seq<Pixel>)
    requires k <= n && KeysInRangeFrom(s, k, n, maxValue)
    ensures multiset(r) == multiset(s)
    ensures SortedFrom(r, k, n)
    decreases n - k
  {
    if k == n then s
    else
      var t := SortFrom(s, k + 1, n, maxValue);
      assert KeysInRange(s, n - 1, maxValue) && KeysInRange(s, k, maxValue);
      assert HasChannels(t, n) && KeysInRange(t, k, maxValue) by {
        forall p | p in t ensures n <= |p| && 0 <= p[k] <= maxValue {
          assert p in multiset(t);
        }
      }
      PassPermutes(t, k, maxValue);
      PassSorts(t, k, n, maxValue);
      Pass(t, k, maxValue)
  }

  /** One more pass extends the passes over channels n-1..k+1 to n-1..k. */
  lemma SortFromStep(s: seq<Pixel>, k: nat, n: nat, maxValue: int)
    requires k < n && KeysInRangeFrom(s, k, n, maxValue)
    ensures KeysInRangeFrom(s, k + 1, n, maxValue)
    ensures KeysInRange(SortFrom(s, k + 1, n, maxValue), k, maxValue)
    ensures SortFrom(s, k, n, maxValue) == Pass(SortFrom(s, k + 1, n, maxValue), k, maxValue)
  {
    SameItems(SortFrom(s, k + 1, n, maxValue), s);
    assert KeysInRange(s, k, maxValue);
  }

  /** Channel k in range extends channels k+1..n-1 in range to k..n-1. */
  lemma KeysInRangeExtend(s: seq<Pixel>, k: nat, n: nat, maxValue: int)
    requires KeysInRangeFrom(s, k + 1, n, maxValue) && KeysInRange(s, k, maxValue)
    ensures KeysInRangeFrom(s, k, n, maxValue)
  {
  }

  /** Sequences with the same multiset hold the same items. */
  lemma SameItems(a: seq<Pixel>, b: seq<Pixel>)
    requires multiset(a) == multiset(b)
    ensures forall p :: p in a <==> p in b
  {
    forall p
      ensures p in a <==> p in b
    {
      assert p in a <==> p in multiset(a);
    }
  }

  /** RadixSorter(maxValue).sort(items): the empty input gives the empty
      list; otherwise the channel count is that of the first item, and the
      result is the items in ascending lexicographic order, channel 0 most
      significant, or the IndexError raised when some item lacks one of
      those channels or holds a value above maxValue. */
  function Sort(items: seq<Pixel>, maxValue: int): (r: Result<seq<Pixel>, SortError>)
    requires |items| > 0 ==> NonNegativeKeys(items, |items[0]|)
    ensures |items| == 0 ==> r == Success([])
    ensures r.Failure? <==> |items| > 0 && !KeysInRangeFrom(items, 0, |items[0]|, maxValue)
    ensures r.Success? ==> multiset(r.value) == multiset(items)
    ensures r.Success? && |items| > 0 ==> SortedFrom(r.value, 0, |items[0]|)
  {
    if |items| == 0 then Success([])
    else if !KeysInRangeFrom(items, 0, |items[0]|, maxValue) then Failure(IndexOutOfRange)
    else Success(SortFrom(items, 0, |items[0]|, maxValue))
  }

  // ----------------------------------------------------------------------
  // Determinism and idempotence

  /** Every item has exactly n channels. */
  predicate Uniform(s: seq<Pixel>, n: nat) {
    forall p :: p in s ==> |p| == n
  }

  /** Dropping the first item keeps a sequence sorted. */
  lemma SortedTail(s: seq<Pixel>, k: nat, n: nat)
    requires |s| > 0 && SortedFrom(s, k, n)
    ensures SortedFrom(s[1..], k, n)
  {
    forall i, j | 0 <= i < j < |s| - 1
      ensures LexLeq(s[1..][i], s[1..][j], k, n)
    {
      assert s[1..][i] == s[i + 1] && s[1..][j] == s[j + 1];
    }
  }

  /** Two non-empty sorted sequences of same-length tuples with the same
      multiset start with the same tuple: the least one. */
  lemma SameFirst(a: seq<Pixel>, b: seq<Pixel>, n: nat)
    requires |a| > 0 && |b| > 0
    requires Uniform(a, n) && Uniform(b, n)
    requires SortedFrom(a, 0, n) && SortedFrom(b, 0, n)
    requires multiset(a) == multiset(b)
    ensures a[0] == b[0]
  {
    assert b[0] in multiset(a) && a[0] in multiset(b);
    var i :| 0 <= i < |a| && a[i] == b[0];
    var j :| 0 <= j < |b| && b[j] == a[0];
    if i != 0 && j != 0 {
      assert LexLeq(a[0], a[i], 0, n) && LexLeq(b[0], b[j], 0, n);
      assert a[0] in a && b[0] in b;
      LexAntisymmetric(a[0], b[0], 0, n);
      assert a[0] == a[0][0..] && b[0] == b[0][0..];
    }
  }

  /** Sequences with the same items and the same first item have the same
      items after it. */
  lemma TailSameItems(a: seq<Pixel>, b: seq<Pixel>)
    requires |a| > 0 && |b| > 0 && a[0] == b[0]
    requires multiset(a) == multiset(b)
    ensures multiset(a[1..]) == multiset(b[1..])
  {
    assert a == [a[0]] + a[1..] && b == [b[0]] + b[1..];
    assert multiset(a) == multiset{a[0]} + multiset(a[1..]);
    assert multiset(b) == multiset{b[0]} + multiset(b[1..]);
    assert multiset(a[1..]) == multiset(a) - multiset{a[0]};
  }

  /** Among tuples of one length, a sorted arrangement is fixed by its
      multiset: two sorted sequences holding the same tuples are equal. */
  lemma {:induction false} SortedUnique(a: seq<Pixel>, b: seq<Pixel>, n: nat)
    requires Uniform(a, n) && Uniform(b, n)
    requires SortedFrom(a, 0, n) && SortedFrom(b, 0, n)
    requires multiset(a) == multiset(b)
    ensures a == b
    decreases |a|
  {
    assert |a| == |multiset(a)| == |multiset(b)| == |b|;
    if |a| > 0 {
      SameFirst(a, b, n);
      TailSameItems(a, b);
      assert Uniform(a[1..], n) && Uniform(b[1..], n) by {
        assert forall p :: p in a[1..] ==> p in a;
        assert forall p :: p in b[1..] ==> p in b;
      }
      SortedTail(a, 0, n);
      SortedTail(b, 0, n);
      SortedUnique(a[1..], b[1..], n);
    }
  }

  /** Determinism: inputs holding the same tuples, all of one length, sort
      to the same result, or both raise the IndexError. */
  lemma SortDeterministic(a: seq<Pixel>, b: seq<Pixel>, n: nat, maxValue: int)
    requires Uniform(a, n) && Uniform(b, n)
    requires NonNegativeKeys(a, n) && NonNegativeKeys(b, n)
    requires multiset(a) == multiset(b)
    ensures Sort(a, maxValue) == Sort(b, maxValue)
  {
    assert |a| == |multiset(a)| == |multiset(b)| == |b|;
    if |a| > 0 {
      assert a[0] in a && b[0] in b;
      SameItems(a, b);
      var ra, rb := Sort(a, maxValue), Sort(b, maxValue);
      forall c | 0 <= c < n
        ensures KeysInRange(a, c, maxValue) <==> KeysInRange(b, c, maxValue)
      {
      }
      if ra.Success? {
        assert KeysInRangeFrom(b, 0, n, maxValue);
        SameItems(ra.value, a);
        SameItems(rb.value, b);
        SortedUnique(ra.value, rb.value, n);
      }
    }
  }

  /** Sorting a sequence that is already sorted leaves it unchanged. */
  lemma SortOfSorted(s: seq<Pixel>, maxValue: int)
    requires |s| > 0 && Uniform(s, |s[0]|) && NonNegativeKeys(s, |s[0]|)
    requires KeysInRangeFrom(s, 0, |s[0]|, maxValue) && SortedFrom(s, 0, |s[0]|)
    ensures Sort(s, maxValue) == Success(s)
  {
    var r := Sort(s, maxValue).value;
    SameItems(r, s);
    SortedUnique(r, s, |s[0]|);
  }

  /** Idempotence: sorting the output of a successful sort returns it unchanged. */
  lemma SortIdempotent(items: seq<Pixel>, out: seq<Pixel>, maxValue: int)
    requires |items| > 0 && Uniform(items, |items[0]|) && NonNegativeKeys(items, |items[0]|)
    requires Sort(items, maxValue) == Success(out)
    ensures |out| > 0 && NonNegativeKeys(out, |out[0]|)
    ensures Sort(out, maxValue) == Success(out)
  {
    var n := |items[0]|;
    assert |out| == |multiset(out)| == |items|;
    SameItems(out, items);
    assert out[0] in out;
    assert KeysInRangeFrom(out, 0, n, maxValue) by {
      forall c | 0 <= c < n ensures KeysInRange(out, c, maxValue) {
        assert KeysInRange(items, c, maxValue);
      }
    }
    SortOfSorted(out, maxValue);
  }

  /** The worked example: three RGB tuples, two sharing channel 0, come out
      ordered by channel 0 and then by channel 1 (for the default max_value
      255 and every other bound that leaves room for the largest value). */
  lemma SortExample(maxValue: int)
    requires 35 <= maxValue
    ensures Sort([[10, 20, 30], [5, 25, 35], [5, 1, 1]], maxValue)
         == Success([[5, 1, 1], [5, 25, 35], [10, 20, 30]])
  {
    var input: seq<Pixel> := [[10, 20, 30], [5, 25, 35], [5, 1, 1]];
    var expected: seq<Pixel> := [[5, 1, 1], [5, 25, 35], [10, 20, 30]];
    ExampleFacts(input, expected, maxValue);
    var r := Sort(input, maxValue).value;
    SameItems(r, input);
    SortedUnique(r, expected, 3);
  }

  /** With the default bound of 255 (line 12) the example sorts as above. */
  lemma DefaultBoundExample()
    ensures Sort([[10, 20, 30], [5, 25, 35], [5, 1, 1]], DefaultMaxValue)
         == Success([[5, 1, 1], [5, 25, 35], [10, 20, 30]])
  {
    SortExample(DefaultMaxValue);
  }

  /** With the default bound, a channel value of 256 has no bucket. */
  lemma DefaultBoundRejects()
    ensures Sort([[0, 256, 0]], DefaultMaxValue) == Failure(IndexOutOfRange)
  {
    var bad: seq<Pixel> := [[0, 256, 0]];
    assert bad[0] in bad && !(0 <= bad[0][1] <= DefaultMaxValue);
    assert !KeysInRange(bad, 1, DefaultMaxValue);
  }

  /** Buckets past every key present add nothing. */
  lemma {:induction false} BucketsPastKeys(s: seq<Pixel>, c: nat, lo: int, hi: int)
    requires lo <= hi
    requires forall p :: p in s && c < |p| ==> p[c] < lo
    ensures Buckets(s, c, 0, hi) == Buckets(s, c, 0, lo)
    decreases hi - lo
  {
    if lo < hi {
      BucketsPastKeys(s, c, lo, hi - 1);
      BucketOfAbsentKey(s, c, hi - 1);
      if 0 < hi {
        assert Buckets(s, c, 0, hi) == Buckets(s, c, 0, hi - 1) + Bucket(s, c, hi - 1);
      }
    }
  }

  /** Bucket v of two items keeps each of them that has key v, in order. */
  lemma BucketOfPair(x: Pixel, y: Pixel, c: nat, v: int)
    ensures Bucket([x, y], c, v)
         == (if c < |x| && x[c] == v then [x] else []) + (if c < |y| && y[c] == v then [y] else [])
  {
    assert [x, y][..1] == [x] && [x][..0] == [];
    assert Bucket([x], c, v) == Bucket([], c, v) + (if c < |x| && x[c] == v then [x] else []);
  }

  /** Idempotence needs tuples of one length: (1,) and (0, 5) sort on
      channel 0 alone, with (1,) last ... */
  lemma MixedLengthsSort(maxValue: int)
    requires 1 <= maxValue
    ensures Sort([[1], [0, 5]], maxValue) == Success([[0, 5], [1]])
  {
    SortPairOnFirst([1], [0, 5], maxValue);
  }

  /** A one-channel item (1,) ahead of an item whose channel 0 is 0 is
      sorted in a single pass that swaps them. */
  lemma SortPairOnFirst(x: Pixel, y: Pixel, maxValue: int)
    requires x == [1] && |y| > 0 && y[0] == 0 && 1 <= maxValue
    ensures Sort([x, y], maxValue) == Success([y, x])
  {
    var s := [x, y];
    assert x in s && y in s;
    SortOneChannel(s, maxValue);
    PassOfPair(x, y, maxValue);
  }

  /** When the first item has one channel, the sort is a single pass. */
  lemma SortOneChannel(s: seq<Pixel>, maxValue: int)
    requires |s| > 0 && |s[0]| == 1 && NonNegativeKeys(s, 1) && KeysInRange(s, 0, maxValue)
    ensures Sort(s, maxValue) == Success(Pass(s, 0, maxValue))
  {
    assert KeysInRangeFrom(s, 0, 1, maxValue);
    SortFromStep(s, 0, 1, maxValue);
  }

  /** The pass on channel 0 over (1,) and an item with key 0 swaps them. */
  lemma PassOfPair(x: Pixel, y: Pixel, maxValue: int)
    requires x == [1] && |y| > 0 && y[0] == 0 && 1 <= maxValue
    ensures Pass([x, y], 0, maxValue) == [y, x]
  {
    var s := [x, y];
    assert x in s && y in s;
    BucketsPastKeys(s, 0, 2, maxValue + 1);
    BucketOfPair(x, y, 0, 0);
    BucketOfPair(x, y, 0, 1);
    assert Buckets(s, 0, 0, 1) == Buckets(s, 0, 0, 0) + Bucket(s, 0, 0) == [y];
    assert Buckets(s, 0, 0, 2) == Buckets(s, 0, 0, 1) + Bucket(s, 0, 1) == [y, x];
  }

  /** ... and sorting that output again looks for channel 1 of (1,). */
  lemma MixedLengthsResortFails(maxValue: int)
    ensures Sort([[0, 5], [1]], maxValue) == Failure(IndexOutOfRange)
  {
    var t: seq<Pixel> := [[0, 5], [1]];
    assert t[1] in t && |t[1]| <= 1;
    assert !KeysInRange(t, 1, maxValue);
  }

  /** The facts about the example the proof above consumes. */
  lemma ExampleFacts(input: seq<Pixel>, expected: seq<Pixel>, maxValue: int)
    requires 35 <= maxValue
    requires input == [[10, 20, 30], [5, 25, 35], [5, 1, 1]]
    requires expected == [[5, 1, 1], [5, 25, 35], [10, 20, 30]]
    ensures KeysInRangeFrom(input, 0, 3, maxValue)
    ensures multiset(expected) == multiset(input)
    ensures Uniform(expected, 3) && SortedFrom(expected, 0, 3)
  {
    forall i, j | 0 <= i < j < 3
      ensures LexLeq(expected[i], expected[j], 0, 3)
    {
      assert expected[i][0] < expected[j][0] || expected[i][1] < expected[j][1];
    }
  }

  // ----------------------------------------------------------------------
  // The source's loops

  /** Scanning one more item appends it to the bucket its channel c names and
      leaves every other bucket as it was. */
  lemma BucketsGrow(s: seq<Pixel>, i: nat, c: nat)
    requires i < |s| && c < |s[i]|
    ensures forall v :: Bucket(s[..i + 1], c, v)
                     == Bucket(s[..i], c, v) + (if s[i][c] == v then [s[i]] else [])
  {
    assert s[..i + 1] == s[..i] + [s[i]];
  }

  /** Item i with channel c in range extends the range condition from the
      first i items to the first i + 1. */
  lemma KeysInRangeGrow(s: seq<Pixel>, i: nat, c: nat, maxValue: int)
    requires i < |s| && c < |s[i]| && 0 <= s[i][c] <= maxValue
    requires KeysInRange(s[..i], c, maxValue)
    ensures KeysInRange(s[..i + 1], c, maxValue)
  {
    assert s[..i + 1] == s[..i] + [s[i]];
  }

  /** One step of the distribution loop: appending item i to the bucket its
      channel c names turns the buckets of the first i items into the
      buckets of the first i + 1. */
  lemma DistributeStep(s: seq<Pixel>, i: nat, c: nat, buckets: seq<seq<Pixel>>, next: seq<seq<Pixel>>)
    requires i < |s| && c < |s[i]| && 0 <= s[i][c] < |buckets|
    requires forall v :: 0 <= v < |buckets| ==> buckets[v] == Bucket(s[..i], c, v)
    requires next == buckets[s[i][c] := buckets[s[i][c]] + [s[i]]]
    ensures |next| == |buckets|
    ensures forall v :: 0 <= v < |next| ==> next[v] == Bucket(s[..i + 1], c, v)
  {
    BucketsGrow(s, i, c);
    forall v | 0 <= v < |next|
      ensures next[v] == Bucket(s[..i + 1], c, v)
    {
      if v == s[i][c] {
        assert next[v] == buckets[v] + [s[i]];
      } else {
        assert next[v] == buckets[v];
      }
    }
  }

  /** Lines 38-40: one empty bucket per value 0..max_value, then every item,
      in order, appended to the bucket its channel c names. Fails with the
      IndexError when an item lacks channel c or its value has no bucket. */
  method Distribute(s: seq<Pixel>, c: nat, maxValue: int) returns (r: Result<seq<seq<Pixel>>, SortError>)
    requires forall p :: p in s && c < |p| ==> 0 <= p[c]
    ensures r.Success? <==> KeysInRange(s, c, maxValue)
    ensures r.Success? ==> |r.value| == if maxValue < 0 then 0 else maxValue + 1
    ensures r.Success? ==> forall v :: 0 <= v < |r.value| ==> r.value[v] == Bucket(s, c, v)
  {
    var count := if maxValue < 0 then 0 else maxValue + 1;
    var buckets: seq<seq<Pixel>> := seq(count, _ => []);
    var i := 0;
    while i < |s|
      invariant 0 <= i <= |s|
      invariant |buckets| == count
      invariant KeysInRange(s[..i], c, maxValue)
      invariant forall v :: 0 <= v < count ==> buckets[v] == Bucket(s[..i], c, v)
    {
      var item := s[i];
      if c >= |item| || item[c] >= count {
        assert item in s;
        return Failure(IndexOutOfRange);
      }
      ghost var before := buckets;
      buckets := buckets[item[c] := buckets[item[c]] + [item]];
      KeysInRangeGrow(s, i, c, maxValue);
      DistributeStep(s, i, c, before, buckets);
      i := i + 1;
    }
    assert s[..i] == s;
    return Success(buckets);
  }

  /** Line 41: the buckets concatenated in index order. */
  method Concatenate(s: seq<Pixel>, c: nat, buckets: seq<seq<Pixel>>) returns (r: seq<Pixel>)
    requires forall v :: 0 <= v < |buckets| ==> buckets[v] == Bucket(s, c, v)
    ensures r == Buckets(s, c, 0, |buckets|)
  {
    r := [];
    var v := 0;
    while v < |buckets|
      invariant 0 <= v <= |buckets|
      invariant r == Buckets(s, c, 0, v)
    {
      r := r + buckets[v];
      v := v + 1;
    }
  }

  /** Lines 38-41: one bucket pass over channel c. */
  method BucketPass(s: seq<Pixel>, c: nat, maxValue: int) returns (r: Result<seq<Pixel>, SortError>)
    requires forall p :: p in s && c < |p| ==> 0 <= p[c]
    ensures r.Success? <==> KeysInRange(s, c, maxValue)
    ensures r.Success? ==> r.value == Pass(s, c, maxValue)
  {
    var buckets := Distribute(s, c, maxValue);
    if buckets.Failure? {
      return Failure(buckets.error);
    }
    var sorted := Concatenate(s, c, buckets.value);
    return Success(sorted);
  }

  // The three lemmas below name both the channel k of the next pass and
  // the channel j = k + 1 the passes so far stopped at, so that the loop of
  // SortItems can hand over its own terms for each.

  /** The items after the passes for channels n-1..j keep the input's
      non-negative channel values, as BucketPass requires of channel k. */
  lemma SortFromNonNegative(items: seq<Pixel>, sorted: seq<Pixel>, k: nat, j: nat, n: nat, maxValue: int)
    requires j == k + 1 && k < n && NonNegativeKeys(items, n) && KeysInRangeFrom(items, j, n, maxValue)
    requires sorted == SortFrom(items, j, n, maxValue)
    ensures forall p :: p in sorted && k < |p| ==> 0 <= p[k]
  {
    SameItems(sorted, items);
  }

  /** A pass over channel k that succeeds on the items sorted on channels
      j..n-1 continues the reference sort. */
  lemma NextChannel(items: seq<Pixel>, sorted: seq<Pixel>, k: nat, j: nat, n: nat, maxValue: int)
    requires j == k + 1 && k < n && KeysInRangeFrom(items, j, n, maxValue)
    requires sorted == SortFrom(items, j, n, maxValue) && KeysInRange(sorted, k, maxValue)
    ensures KeysInRangeFrom(items, k, n, maxValue)
    ensures Pass(sorted, k, maxValue) == SortFrom(items, k, n, maxValue)
  {
    SameItems(sorted, items);
    assert KeysInRange(items, k, maxValue);
    KeysInRangeExtend(items, k, n, maxValue);
    SortFromStep(items, k, n, maxValue);
  }

  /** A pass over channel k that fails on the items sorted on channels
      j..n-1 means the whole sort raises the IndexError. */
  lemma FailedChannel(items: seq<Pixel>, sorted: seq<Pixel>, k: nat, j: nat, maxValue: int)
    requires |items| > 0 && j == k + 1 && k < |items[0]| && NonNegativeKeys(items, |items[0]|)
    requires KeysInRangeFrom(items, j, |items[0]|, maxValue)
    requires sorted == SortFrom(items, j, |items[0]|, maxValue) && !KeysInRange(sorted, k, maxValue)
    ensures Sort(items, maxValue) == Failure(IndexOutOfRange)
  {
    SameItems(sorted, items);
    assert !KeysInRange(items, k, maxValue);
  }

  /** Once the passes reach channel 0 the loop holds the sort's result. */
  lemma SortDone(items: seq<Pixel>, sorted: seq<Pixel>, maxValue: int)
    requires |items| > 0 && NonNegativeKeys(items, |items[0]|)
    requires KeysInRangeFrom(items, 0, |items[0]|, maxValue)
    requires sorted == SortFrom(items, 0, |items[0]|, maxValue)
    ensures Sort(items, maxValue) == Success(sorted)
  {
  }

  /** Lines 31-43: the empty input returns at once; otherwise one bucket
      pass per channel, from the last channel to the first. */
  method SortItems(items: seq<Pixel>, maxValue: int) returns (r: Result<seq<Pixel>, SortError>)
    requires |items| > 0 ==> NonNegativeKeys(items, |items[0]|)
    ensures r == Sort(items, maxValue)
  {
    if |items| == 0 {
      return Success([]);
    }
    var n := |items[0]|;
    var sorted := items;
    var channel := n;
    while channel > 0
      invariant 0 <= channel <= n
      invariant KeysInRangeFrom(items, channel, n, maxValue)
      invariant sorted == SortFrom(items, channel, n, maxValue)
    {
      var c := channel - 1;
      SortFromNonNegative(items, sorted, c, channel, n, maxValue);
      var pass := BucketPass(sorted, c, maxValue);
      if pass.Failure? {
        FailedChannel(items, sorted, c, channel, maxValue);
        return Failure(IndexOutOfRange);
      }
      NextChannel(items, sorted, c, channel, n, maxValue);
      sorted, channel := pass.value, c;
    }
    assert channel == 0;
    SortDone(items, sorted, maxValue);
    return Success(sorted);
  }
}
