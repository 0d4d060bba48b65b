/** The ring-buffer median filter of applications/median_filter.c, over reals. */
module MedianFilter {

  // --- Counting and order statistics ----------------------------------------

  function Count(s: seq<real>, p: real -> bool): nat
    decreases |s|
  {
    if s == [] then 0 else (if p(s[0]) then 1 else 0) + Count(s[1..], p)
  }

  function AtLeast(x: real): real -> bool { v => v >= x }

  function AtMost(x: real): real -> bool { v => v <= x }

  function Within(lo: real, hi: real): real -> bool { v => lo <= v <= hi }

  lemma {:induction false} CountConcat(a: seq<real>, b: seq<real>, p: real -> bool)
    ensures Count(a + b, p) == Count(a, p) + Count(b, p)
    decreases |a|
  {
    if a == [] {
      assert a + b == b;
    } else {
      assert (a + b)[1..] == a[1..] + b;
      CountConcat(a[1..], b, p);
    }
  }

  lemma CountSplit(s: seq<real>, m: nat, p: real -> bool)
    requires m <= |s|
    ensures Count(s, p) == Count(s[..m], p) + Count(s[m..], p)
  {
    assert s == s[..m] + s[m..];
    CountConcat(s[..m], s[m..], p);
  }

  lemma MultisetRemove(b: seq<real>, i: nat)
    requires i < |b|
    ensures multiset(b) == multiset{b[i]} + multiset(b[..i] + b[i + 1..])
  {
    assert b == b[..i] + ([b[i]] + b[i + 1..]);
  }

  lemma MultisetCancel(x: real, a: multiset<real>, b: multiset<real>)
    requires multiset{x} + a == multiset{x} + b
    ensures a == b
  {
    assert a == (multiset{x} + a) - multiset{x};
    assert b == (multiset{x} + b) - multiset{x};
  }

  /** Taking the head of a out of a permutation of a leaves one of its tail. */
  lemma RemoveHead(a: seq<real>, b: seq<real>) returns (i: nat)
    requires a != [] && multiset(a) == multiset(b)
    ensures i < |b| && b[i] == a[0] && multiset(a[1..]) == multiset(b[..i] + b[i + 1..])
  {
    assert a[0] in multiset(a);
    i := FindIn(a[0], b);
    var rest := b[..i] + b[i + 1..];
    assert a == [a[0]] + a[1..];
    MultisetRemove(b, i);
    MultisetCancel(a[0], multiset(a[1..]), multiset(rest));
  }

  lemma FindIn(x: real, b: seq<real>) returns (i: nat)
    requires x in multiset(b)
    ensures i < |b| && b[i] == x
  {
    i :| 0 <= i < |b| && b[i] == x;
  }

  lemma CountRemove(b: seq<real>, i: nat, p: real -> bool)
    requires i < |b|
    ensures Count(b, p) == Count(b[..i] + b[i + 1..], p) + (if p(b[i]) then 1 else 0)
  {
    CountSplit(b, i, p);
    CountConcat(b[..i], b[i + 1..], p);
    assert b[i..][1..] == b[i + 1..];
  }

  /** Counting does not depend on the order. */
  lemma {:induction false} CountPermutation(a: seq<real>, b: seq<real>, p: real -> bool)
    requires multiset(a) == multiset(b)
    ensures Count(a, p) == Count(b, p)
    decreases |a|
  {
    if a == [] {
      assert |b| == |multiset(b)| == 0;
    } else {
      var i := RemoveHead(a, b);
      CountPermutation(a[1..], b[..i] + b[i + 1..], p);
      CountRemove(b, i, p);
    }
  }

  lemma {:induction false} CountImplies(s: seq<real>, p: real -> bool, q: real -> bool)
    requires forall v :: p(v) ==> q(v)
    ensures Count(s, p) <= Count(s, q)
    decreases |s|
  {
    if s != [] { CountImplies(s[1..], p, q); }
  }

  ghost predicate Sorted(s: seq<real>) {
    forall i, j :: 0 <= i < j < |s| ==> s[i] <= s[j]
  }

  lemma {:induction false} CountAll(s: seq<real>, p: real -> bool)
    requires forall k :: 0 <= k < |s| ==> p(s[k])
    ensures Count(s, p) == |s|
    decreases |s|
  {
    if s != [] { CountAll(s[1..], p); }
  }

  lemma {:induction false} CountNone(s: seq<real>, p: real -> bool)
    requires forall k :: 0 <= k < |s| ==> !p(s[k])
    ensures Count(s, p) == 0
    decreases |s|
  {
    if s != [] { CountNone(s[1..], p); }
  }

  lemma SortedPair(s: seq<real>, i: nat, j: nat)
    requires Sorted(s) && i <= j < |s|
    ensures s[i] <= s[j]
  {
  }

  /** Position m of a sorted sequence is at least x iff the elements from m on
      are, that is iff at least |s| - m elements are. */
  lemma SortedRankAtLeast(s: seq<real>, m: nat, x: real)
    requires Sorted(s) && m < |s|
    ensures s[m] >= x <==> Count(s, AtLeast(x)) >= |s| - m
  {
    hide Sorted;
    var p := AtLeast(x);
    if s[m] >= x {
      CountSplit(s, m, p);
      forall k | m <= k < |s| ensures p(s[k]) { SortedPair(s, m, k); }
      CountAll(s[m..], p);
    } else {
      CountSplit(s, m + 1, p);
      forall k | 0 <= k <= m ensures !p(s[k]) { SortedPair(s, k, m); }
      CountNone(s[..m + 1], p);
      CountBound(s[m + 1..], p);
    }
  }

  lemma SortedRankAtMost(s: seq<real>, m: nat, x: real)
    requires Sorted(s) && m < |s|
    ensures s[m] <= x <==> Count(s, AtMost(x)) >= m + 1
  {
    hide Sorted;
    var p := AtMost(x);
    if s[m] <= x {
      CountSplit(s, m + 1, p);
      forall k | 0 <= k <= m ensures p(s[k]) { SortedPair(s, k, m); }
      CountAll(s[..m + 1], p);
    } else {
      CountSplit(s, m, p);
      forall k | m <= k < |s| ensures !p(s[k]) { SortedPair(s, m, k); }
      CountNone(s[m..], p);
      CountBound(s[..m], p);
    }
  }

  lemma {:induction false} CountBound(s: seq<real>, p: real -> bool)
    ensures Count(s, p) <= |s|
    decreases |s|
  {
    if s != [] { CountBound(s[1..], p); }
  }

  // --- The specification --------------------------------------------------------

  /** m is the median of s: for every bound x, m >= x iff most elements are. */
  ghost predicate IsMedian(m: real, s: seq<real>) {
    forall x: real :: m >= x <==> 2 * Count(s, AtLeast(x)) > |s|
  }

  lemma MedianUnique(m: real, n: real, s: seq<real>)
    requires IsMedian(m, s) && IsMedian(n, s)
    ensures m == n
  {
    assert m >= n <==> 2 * Count(s, AtLeast(n)) > |s|;
    assert n >= m <==> 2 * Count(s, AtLeast(m)) > |s|;
  }

  function Insert(x: real, s: seq<real>): (r: seq<real>)
    ensures multiset(r) == multiset([x] + s)
    decreases |s|
  {
    if s == [] || x <= s[0] then [x] + s
    else
      assert [x] + s == [x] + ([s[0]] + s[1..]);
      [s[0]] + Insert(x, s[1..])
  }

  ghost predicate AllAtLeast(s: seq<real>, lo: real) {
    forall k :: 0 <= k < |s| ==> lo <= s[k]
  }

  lemma SortedCons(x: real, s: seq<real>)
    requires Sorted(s) && AllAtLeast(s, x)
    ensures Sorted([x] + s)
  {
  }

  lemma SortedTail(s: seq<real>)
    requires Sorted(s) && s != []
    ensures Sorted(s[1..]) && AllAtLeast(s[1..], s[0]) && AllAtLeast(s, s[0])
  {
  }

  lemma {:induction false} InsertAtLeast(x: real, s: seq<real>, lo: real)
    requires lo <= x && AllAtLeast(s, lo)
    ensures AllAtLeast(Insert(x, s), lo)
    decreases |s|
  {
    if s != [] && x > s[0] { InsertAtLeast(x, s[1..], lo); }
  }

  lemma {:induction false} InsertSorted(x: real, s: seq<real>)
    requires Sorted(s)
    ensures Sorted(Insert(x, s))
    decreases |s|
  {
    hide Sorted;
    if s == [] {
      SortedSingle(x);
    } else {
      SortedTail(s);
      if x <= s[0] {
        AllAtLeastWeaken(s, s[0], x);
        SortedCons(x, s);
      } else {
        InsertSorted(x, s[1..]);
        InsertAtLeast(x, s[1..], s[0]);
        SortedCons(s[0], Insert(x, s[1..]));
      }
    }
  }

  lemma AllAtLeastWeaken(s: seq<real>, lo: real, x: real)
    requires AllAtLeast(s, lo) && x <= lo
    ensures AllAtLeast(s, x)
  {
  }

  lemma SortedSingle(x: real)
    ensures Sorted([x] + [])
  {
  }

  function Sort(s: seq<real>): (r: seq<real>)
    ensures multiset(r) == multiset(s) && |r| == |s|
    decreases |s|
  {
    if s == [] then []
    else
      assert s == [s[0]] + s[1..];
      var r := Insert(s[0], Sort(s[1..]));
      assert |r| == |multiset(r)| == |multiset(s)|;
      r
  }

  lemma {:induction false} SortSorted(s: seq<real>)
    ensures Sorted(Sort(s))
    decreases |s|
  {
    if s != [] {
      SortSorted(s[1..]);
      InsertSorted(s[0], Sort(s[1..]));
    }
  }

  function Median(s: seq<real>): real
    requires |s| > 0
  {
    Sort(s)[|s| / 2]
  }

  /** The middle of any sorted arrangement of an odd window is its median. */
  lemma MiddleIsMedian(s: seq<real>, sorted: seq<real>)
    requires |s| % 2 == 1 && |sorted| == |s| && Sorted(sorted) && multiset(sorted) == multiset(s)
    ensures IsMedian(sorted[|s| / 2], s)
  {
    forall x: real
      ensures sorted[|s| / 2] >= x <==> 2 * Count(s, AtLeast(x)) > |s|
    {
      SortedRankAtLeast(sorted, |s| / 2, x);
      CountPermutation(sorted, s, AtLeast(x));
    }
  }

  lemma MedianIsMedian(s: seq<real>)
    requires |s| % 2 == 1
    ensures IsMedian(Median(s), s)
  {
    SortSorted(s);
    MiddleIsMedian(s, Sort(s));
  }

  /** A minority of outliers cannot move the median out of a range that holds
      the majority of the window. */
  lemma MajorityBoundsMedian(s: seq<real>, lo: real, hi: real)
    requires |s| % 2 == 1 && 2 * Count(s, Within(lo, hi)) > |s|
    ensures lo <= Median(s) <= hi
  {
    CountImplies(s, Within(lo, hi), AtLeast(lo));
    CountImplies(s, Within(lo, hi), AtMost(hi));
    MedianIsMedian(s);
    assert Median(s) >= lo <==> 2 * Count(s, AtLeast(lo)) > |s|;
    SortSorted(s);
    SortedRankAtMost(Sort(s), |s| / 2, hi);
    CountPermutation(Sort(s), s, AtMost(hi));
  }

  /** What a median filter should answer after the inputs h, the newest last. */
  function Filtered(h: seq<real>, size: nat): real
    requires |h| > 0 && size > 0
  {
    if |h| < size then h[|h| - 1] else Median(h[|h| - size..])
  }

  // --- What the ring holds, for every window size -----------------------------------

  /** median_index and median_window_full after a number of calls. */
  function IndexAfter(size: nat, calls: nat): (r: (nat, bool))
    ensures size > 0 ==> r.0 < size
    decreases calls
  {
    if calls == 0 then (0, false)
    else
      var (i, f) := IndexAfter(size, calls - 1);
      var j := (i + 1) % 256;
      if j >= size then (0, true) else (j, f)
  }

  /** The window after the inputs h, when it held `initial` at first. */
  function RingAfter(initial: seq<real>, h: seq<real>): (w: seq<real>)
    requires |initial| > 0
    ensures |w| == |initial|
    decreases |h|
  {
    if h == [] then initial
    else
      var n := |h| - 1;
      RingAfter(initial, h[..n])[IndexAfter(|initial|, n).0 := h[n]]
  }

  /** The filter hands back its input instead of a median. */
  predicate AnswersRaw(size: nat, calls: nat) {
    var (i, f) := IndexAfter(size, calls);
    !f && i != 0
  }

  /** What the code answers after the inputs h. */
  function Answer(initial: seq<real>, h: seq<real>): real
    requires |initial| > 0 && h != []
  {
    if AnswersRaw(|initial|, |h|) then h[|h| - 1] else Median(RingAfter(initial, h))
  }

  lemma RingSnoc(initial: seq<real>, h: seq<real>, input: real)
    requires |initial| > 0
    ensures RingAfter(initial, h + [input]) == RingAfter(initial, h)[IndexAfter(|initial|, |h|).0 := input]
  {
    assert (h + [input])[..|h|] == h;
  }

  /** The ring w, its write index and its flag after the inputs h, when the
      index runs through the whole of w. */
  ghost predicate RingOk(w: seq<real>, index: nat, full: bool, h: seq<real>) {
    && index < |w| && index <= |h|
    && (full <==> |h| >= |w|)
    && (!full ==> index == |h|)
    && w[..index] == h[|h| - index..]
    && (full ==> w[index..] == h[|h| - |w|..|h| - index])
  }

  /** The ring after the store and the advance of the index. */
  lemma RingStep(w: seq<real>, index: nat, full: bool, h: seq<real>, input: real)
    requires RingOk(w, index, full, h)
    ensures var next := if index + 1 == |w| then 0 else index + 1;
            RingOk(w[index := input], next, full || next == 0, h + [input])
  {
    var v, g := w[index := input], h + [input];
    if index + 1 == |w| {
      assert v == w[..index] + [input];
      assert g[|g| - |w|..] == h[|h| - index..] + [input];
    } else {
      assert v[..index + 1] == w[..index] + [input];
      assert v[index + 1..] == w[index..][1..];
    }
  }

  /** A full ring is the last inputs, rotated, so it has their median. */
  lemma MedianOfRing(w: seq<real>, h: seq<real>, i: nat, full: bool)
    requires RingOk(w, i, full, h) && full && |w| % 2 == 1
    ensures |h| >= |w| && Median(w) == Median(h[|h| - |w|..])
  {
    hide Median;
    var last := h[|h| - |w|..];
    assert last == w[i..] + w[..i];
    assert w == w[..i] + w[i..];
    assert multiset(last) == multiset(w[i..]) + multiset(w[..i]) == multiset(w);
    MedianOfPermutation(w, last);
  }

  lemma MedianOfPermutation(a: seq<real>, b: seq<real>)
    requires |a| == |b| && |a| % 2 == 1 && multiset(a) == multiset(b)
    ensures Median(a) == Median(b)
  {
    SortSorted(a);
    MiddleIsMedian(b, Sort(a));
    MedianIsMedian(b);
    MedianUnique(Median(a), Median(b), b);
  }

  lemma SmallIndexStep(size: nat, calls: nat)
    requires 0 < size <= 255
    ensures var (i, f) := IndexAfter(size, calls);
            IndexAfter(size, calls + 1) == if i + 1 == size then (0, true) else (i + 1, f)
  {
  }

  /** Up to 255 the index runs through the whole window. */
  lemma {:induction false} SmallRing(initial: seq<real>, h: seq<real>)
    requires 0 < |initial| <= 255
    ensures var (i, f) := IndexAfter(|initial|, |h|); RingOk(RingAfter(initial, h), i, f, h)
    decreases |h|
  {
    hide RingOk, IndexAfter, RingAfter;
    if h == [] {
      RingNone(initial);
      EmptyRing(initial);
    } else {
      var front, input := h[..|h| - 1], h[|h| - 1];
      assert h == front + [input];
      SmallRing(initial, front);
      var (i, f) := IndexAfter(|initial|, |front|);
      RingSnoc(initial, front, input);
      SmallIndexStep(|initial|, |front|);
      RingStep(RingAfter(initial, front), i, f, front, input);
    }
  }

  lemma RingNone(initial: seq<real>)
    requires |initial| > 0
    ensures RingAfter(initial, []) == initial && IndexAfter(|initial|, 0) == (0, false)
  {
  }

  lemma EmptyRing(initial: seq<real>)
    requires |initial| > 0
    ensures RingOk(initial, 0, false, [])
  {
  }

  lemma {:induction false} LargeIndex(size: nat, calls: nat)
    requires size > 255
    ensures IndexAfter(size, calls) == (calls % 256, false)
    decreases calls
  {
    if calls > 0 {
      LargeIndex(size, calls - 1);
      ModStep(calls - 1);
    }
  }

  lemma ModStep(n: nat)
    ensures (n + 1) % 256 == if n % 256 == 255 then 0 else n % 256 + 1
  {
  }

  /** Above 255 the 8-bit index only ever reaches the first 256 cells: they are
      a ring of their own, and the rest is never written. */
  lemma {:induction false} LargeRing(initial: seq<real>, h: seq<real>)
    requires |initial| > 255
    ensures var w := RingAfter(initial, h);
            RingOk(w[..256], |h| % 256, |h| >= 256, h) && w[256..] == initial[256..]
    decreases |h|
  {
    hide RingOk, IndexAfter, RingAfter;
    if h == [] {
      RingNone(initial);
      EmptyRing(initial[..256]);
    } else {
      var front, input := h[..|h| - 1], h[|h| - 1];
      assert h == front + [input];
      LargeRing(initial, front);
      LargeRingStep(initial, front, input);
    }
  }

  lemma LargeRingStep(initial: seq<real>, h: seq<real>, input: real)
    requires |initial| > 255
    requires RingOk(RingAfter(initial, h)[..256], |h| % 256, |h| >= 256, h)
    ensures var v := RingAfter(initial, h + [input]);
            RingOk(v[..256], (|h| + 1) % 256, |h| + 1 >= 256, h + [input])
            && v[256..] == RingAfter(initial, h)[256..]
  {
    hide RingOk, IndexAfter, RingAfter;
    RingSnoc(initial, h, input);
    LargeIndex(|initial|, |h|);
    ModStep(|h|);
    PartRingStep(RingAfter(initial, h), |h| % 256, h, input);
  }

  /** A ring in the first 256 cells of w. */
  lemma PartRingStep(w: seq<real>, i: nat, h: seq<real>, input: real)
    requires |w| > 255 && i < 256 && RingOk(w[..256], i, |h| >= 256, h)
    ensures var v := w[i := input];
            RingOk(v[..256], if i == 255 then 0 else i + 1, |h| + 1 >= 256, h + [input]) && v[256..] == w[256..]
  {
    hide RingOk;
    var next := if i == 255 then 0 else i + 1;
    RingStep(w[..256], i, |h| >= 256, h, input);
    RingFull(w[..256][i := input], next, |h| >= 256 || next == 0, h + [input]);
    assert w[i := input][..256] == w[..256][i := input];
    assert w[i := input][256..] == w[256..];
  }

  lemma RingFull(w: seq<real>, index: nat, full: bool, h: seq<real>)
    requires RingOk(w, index, full, h)
    ensures full <==> |h| >= |w|
    ensures !full ==> index == |h| < |w|
  {
  }

  // --- When the filter is one ---------------------------------------------------------

  lemma SmallWindowAnswers(initial: seq<real>, h: seq<real>)
    requires |initial| % 2 == 1 && |initial| <= 255 && h != []
    ensures Answer(initial, h) == Filtered(h, |initial|)
  {
    hide Median, IndexAfter, RingAfter;
    SmallRing(initial, h);
    var (i, f) := IndexAfter(|initial|, |h|);
    RingFull(RingAfter(initial, h), i, f, h);
    if f { MedianOfRing(RingAfter(initial, h), h, i, f); }
  }

  /** The input comes back raw iff the flag is clear and the number of calls is
      no multiple of 256; the flag of a window above 255 is never set. */
  lemma AnswersRawIff(initial: seq<real>, h: seq<real>)
    requires |initial| > 0
    ensures AnswersRaw(|initial|, |h|) <==> !IndexAfter(|initial|, |h|).1 && |h| % 256 != 0
    ensures IndexAfter(|initial|, |h|).1 <==> |initial| <= 255 && |h| >= |initial|
  {
    hide IndexAfter, RingAfter, RingOk;
    var (i, f) := IndexAfter(|initial|, |h|);
    if |initial| <= 255 {
      SmallRing(initial, h);
      RingFull(RingAfter(initial, h), i, f, h);
    } else {
      LargeIndex(|initial|, |h|);
    }
  }

  lemma RingRestarted(w: seq<real>, h: seq<real>)
    requires RingOk(w, 0, true, h)
    ensures |h| >= |w| && w == h[|h| - |w|..]
  {
  }

  lemma LargeRingRestarted(initial: seq<real>, h: seq<real>)
    requires |initial| > 255 && |h| % 256 == 0 && h != []
    ensures |h| >= 256 && RingAfter(initial, h) == h[|h| - 256..] + initial[256..]
  {
    hide RingOk, RingAfter, IndexAfter;
    LargeRing(initial, h);
    var w := RingAfter(initial, h);
    assert w == w[..256] + w[256..];
    RingRestarted(w[..256], h);
  }

  /** What an odd window above 255 answers: its input, but on every 256th call
      the median of the last 256 inputs and the cells that are never written. */
  lemma LargeWindowAnswers(initial: seq<real>, h: seq<real>)
    requires |initial| % 2 == 1 && |initial| > 255 && h != []
    ensures Answer(initial, h) ==
              if |h| % 256 != 0 then h[|h| - 1] else Median(h[|h| - 256..] + initial[256..])
  {
    hide Median, IndexAfter, RingAfter;
    LargeIndex(|initial|, |h|);
    if |h| % 256 == 0 { LargeRingRestarted(initial, h); }
  }

  /** 255 zeros and a one, for a window whose cells were zero at first. */
  function FailingInput(): (h: seq<real>)
    ensures |h| == 256
  {
    seq(255, _ => 0.0) + [1.0]
  }

  /** The 256th call of any larger window returns less than its input, though
      the window has not filled. */
  lemma LargeWindowFails(size: nat)
    requires size % 2 == 1 && size > 255
    ensures var initial := seq(size, _ => 0.0);
            Answer(initial, FailingInput()) < 1.0 == Filtered(FailingInput(), size)
  {
    hide Median, Count;
    var initial, h := seq(size, _ => 0.0), FailingInput();
    LargeWindowAnswers(initial, h);
    var w := h + initial[256..];
    assert h[0..] == h;
    CountOne(w, 255);
    MedianIsMedian(w);
    assert Median(w) >= 1.0 <==> 2 * Count(w, AtLeast(1.0)) > |w|;
  }

  lemma CountOne(w: seq<real>, k: nat)
    requires k < |w| && w[k] == 1.0 && forall j :: 0 <= j < |w| && j != k ==> w[j] == 0.0
    ensures Count(w, AtLeast(1.0)) == 1
  {
    CountRemove(w, k, AtLeast(1.0));
    CountNone(w[..k] + w[k + 1..], AtLeast(1.0));
  }

  /** median_filter_init takes any odd size, but the filter answers as a median
      filter should for every history iff its size is at most 255. */
  lemma AnswersFilteredIff(size: nat)
    requires size % 2 == 1
    ensures (forall initial: seq<real>, h: seq<real> :: |initial| == size && h != [] ==>
               Answer(initial, h) == Filtered(h, size))
       <==> size <= 255
  {
    hide Answer, Filtered;
    if size <= 255 {
      forall initial: seq<real>, h: seq<real> | |initial| == size && h != []
        ensures Answer(initial, h) == Filtered(h, size)
      {
        SmallWindowAnswers(initial, h);
      }
    } else {
      LargeWindowFails(size);
      var initial := seq(size, _ => 0.0);
      assert Answer(initial, FailingInput()) != Filtered(FailingInput(), size);
    }
  }

  // --- The code -------------------------------------------------------------------

  datatype FilterError = FilterOk | FilterPara | FilterNoMem

  class Filter {
    var full: bool                 // median_window_full
    var index: nat                 // median_index, a uint8_t
    const size: nat                // median_filter_window_size
    const window: array<real>      // median_window
    const sorted: array<real>      // sorted_window
    ghost var history: seq<real>   // every input so far
    ghost const initial: seq<real> // what the window held when it was allocated

    ghost predicate Valid()
      reads this, window
    {
      && size % 2 == 1 && |initial| == size
      && window.Length == size && sorted.Length == size && window != sorted
      && (index, full) == IndexAfter(size, |history|)
      && window[..] == RingAfter(initial, history)
    }

    constructor (windowSize: nat)
      requires windowSize % 2 == 1
      ensures Valid() && size == windowSize && history == []
      ensures fresh(window) && fresh(sorted)
    {
      var w := new real[windowSize];
      full, index, size, history := false, 0, windowSize, [];
      window, initial := w, w[..];
      sorted := new real[windowSize];
    }

    /** The first half of median_filter_handle: store and advance. */
    method Store(input: real)
      requires Valid()
      modifies this, window
      ensures Valid() && history == old(history) + [input]
    {
      RingSnoc(initial, history, input);
      window[index] := input;
      history := history + [input];
      index := (index + 1) % 256;
      if index >= size {
        index := 0;
        full := true;
      }
    }

    /** median_filter_handle */
    method Handle(input: real) returns (r: real)
      requires Valid()
      modifies this, window, sorted
      ensures Valid() && history == old(history) + [input]
      ensures r == Answer(initial, history)
      ensures size <= 255 ==> r == Filtered(history, size)
    {
      hide Median, RingAfter, IndexAfter;
      Store(input);
      if size <= 255 { SmallWindowAnswers(initial, history); }
      if !full && index != 0 {
        return input;
      }
      ghost var w := window[..];
      forall k | 0 <= k < size {
        sorted[k] := window[k];
      }
      assert window[..] == w && sorted[..] == w;
      SortInPlace(sorted);
      assert window[..] == w;
      r := sorted[size / 2];
      MedianOfSorted(w, sorted[..]);
    }
  }

  lemma MedianOfSorted(w: seq<real>, sorted: seq<real>)
    requires |w| % 2 == 1 && |sorted| == |w| && Sorted(sorted) && multiset(sorted) == multiset(w)
    ensures sorted[|w| / 2] == Median(w)
  {
    hide Median;
    MiddleIsMedian(w, sorted);
    MedianIsMedian(w);
    MedianUnique(sorted[|w| / 2], Median(w), w);
  }

  /** median_filter_init: an even or zero size is refused, as is a failed
      allocation; any odd size is accepted. */
  method InitFilter(windowSize: nat, memory: bool) returns (err: FilterError, mf: Filter?)
    ensures err == FilterPara <==> windowSize % 2 == 0
    ensures err == FilterNoMem <==> windowSize % 2 == 1 && !memory
    ensures mf != null <==> err == FilterOk
    ensures mf != null ==> fresh(mf) && fresh(mf.window) && fresh(mf.sorted) && mf.size == windowSize
    ensures mf != null ==> mf.Valid() && mf.history == []
  {
    if windowSize == 0 || windowSize % 2 == 0 {
      return FilterPara, null;
    }
    if !memory {
      return FilterNoMem, null;
    }
    mf := new Filter(windowSize);
    err := FilterOk;
  }

  // --- Sorting in place (for qsort) ------------------------------------------------

  /** Sorted except that element k may be too small for its place. */
  ghost predicate SortedButOne(s: seq<real>, k: nat, n: nat) {
    && k < n <= |s|
    && (forall i, j :: 0 <= i < j < n && j != k && i != k ==> s[i] <= s[j])
    && (forall j :: k < j < n ==> s[k] <= s[j])
  }

  method SwapDown(a: array<real>, k: nat)
    requires 0 < k < a.Length
    modifies a
    ensures a[..] == old(a[..])[k - 1 := old(a[k])][k := old(a[k - 1])]
    ensures multiset(a[..]) == multiset(old(a[..]))
  {
    a[k - 1], a[k] := a[k], a[k - 1];
  }

  method SortInPlace(a: array<real>)
    modifies a
    ensures Sorted(a[..]) && multiset(a[..]) == multiset(old(a[..]))
  {
    for n := 0 to a.Length
      invariant Sorted(a[..n]) && multiset(a[..]) == multiset(old(a[..]))
    {
      var k := n;
      while k > 0 && a[k - 1] > a[k]
        invariant k <= n && SortedButOne(a[..], k, n + 1)
        invariant multiset(a[..]) == multiset(old(a[..]))
      {
        SwapDown(a, k);
        k := k - 1;
      }
      assert Sorted(a[..n + 1]);
    }
    assert a[..a.Length] == a[..];
  }
}
