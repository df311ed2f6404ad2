/**
 * The k-way merge of the streams' items (`kmerge` at src/main.rs:118), by its
 * greedy rule: emit the smallest head under the items' order, then refill from
 * that same stream. The items are `(Option<DateTime>, String)` pairs, so the
 * order is Rust's tuple order: untimestamped items first, then by time, then by
 * the rendered text.
 */
module Merge {
  import opened Wrappers
  import opened TimestampKinds
  import opened TimestampStream

  /** Rust's order on `Option<DateTime>`, strict part: None before Some, then earlier before later. */
  predicate TsBefore(a: Option<Timestamp>, b: Option<Timestamp>) {
    (a.None? && b.Some?) || (a.Some? && b.Some? && a.value < b.value)
  }

  /**
   * Rust's order on `String`: byte-wise lexicographic on UTF-8, which is the
   * same as lexicographic on code points.
   */
  predicate TextLeq(a: string, b: string) {
    |a| == 0 || (|b| > 0 && (a[0] < b[0] || (a[0] == b[0] && TextLeq(a[1..], b[1..]))))
  }

  /** The merge order on items: timestamp first, the text breaking ties. */
  function Leq(a: Item, b: Item): (r: bool)
    ensures a.ts.None? && b.ts.Some? ==> r
    ensures a.ts.Some? && b.ts.None? ==> !r
    ensures a.ts.Some? && b.ts.Some? && a.ts.value != b.ts.value ==> (r <==> a.ts.value < b.ts.value)
    ensures a.ts == b.ts && a.text <= b.text ==> r
    ensures a.ts == b.ts && |a.text| > 0 && |b.text| > 0 && a.text[0] != b.text[0] ==> (r <==> a.text[0] < b.text[0])
    ensures a.ts == b.ts && b.text < a.text ==> !r
    ensures forall k :: a.ts == b.ts && FirstDifferenceAt(a.text, b.text, k) ==> (r <==> a.text[k] < b.text[k])
  {
    TextLeqPrefix(a.text, b.text);
    TextLeqLonger(a.text, b.text);
    TextLeqFirstDifference(a.text, b.text);
    TsBefore(a.ts, b.ts) || (a.ts == b.ts && TextLeq(a.text, b.text))
  }

  /** A prefix comes before every longer text it begins. */
  lemma {:induction false} TextLeqPrefix(a: string, b: string)
    ensures a <= b ==> TextLeq(a, b)
  {
    if |a| > 0 && a <= b {
      assert a[1..] == b[1..][..|a| - 1];
      TextLeqPrefix(a[1..], b[1..]);
    }
  }

  /** A text never comes before a proper prefix of itself. */
  lemma {:induction false} TextLeqLonger(a: string, b: string)
    ensures b < a ==> !TextLeq(a, b)
  {
    if b < a && |b| > 0 {
      assert b[1..] == a[1..][..|b| - 1];
      TextLeqLonger(a[1..], b[1..]);
    }
  }

  /** `a` and `b` agree before position `k` and differ at it. */
  predicate FirstDifferenceAt(a: string, b: string, k: int) {
    0 <= k < |a| && k < |b| && a[..k] == b[..k] && a[k] != b[k]
  }

  /** Past a common prefix, the first differing character decides. */
  lemma {:induction false} TextLeqAt(a: string, b: string, k: nat)
    requires FirstDifferenceAt(a, b, k)
    ensures TextLeq(a, b) <==> a[k] < b[k]
  {
    if k > 0 {
      assert a[0] == a[..k][0] == b[..k][0] == b[0];
      assert a[1..][..k - 1] == a[..k][1..] == b[..k][1..] == b[1..][..k - 1];
      TextLeqAt(a[1..], b[1..], k - 1);
    }
  }

  lemma TextLeqFirstDifference(a: string, b: string)
    ensures forall k :: FirstDifferenceAt(a, b, k) ==> (TextLeq(a, b) <==> a[k] < b[k])
  {
    forall k | FirstDifferenceAt(a, b, k)
      ensures TextLeq(a, b) <==> a[k] < b[k]
    {
      TextLeqAt(a, b, k);
    }
  }

  lemma {:induction false} TextLeqReflexive(a: string)
    ensures TextLeq(a, a)
  {
    if |a| > 0 {
      TextLeqReflexive(a[1..]);
    }
  }

  lemma {:induction false} TextLeqAntisymmetric(a: string, b: string)
    requires TextLeq(a, b) && TextLeq(b, a)
    ensures a == b
  {
    if |a| > 0 {
      TextLeqAntisymmetric(a[1..], b[1..]);
      assert a == [a[0]] + a[1..] && b == [b[0]] + b[1..];
    }
  }

  lemma {:induction false} TextLeqTransitive(a: string, b: string, c: string)
    requires TextLeq(a, b) && TextLeq(b, c)
    ensures TextLeq(a, c)
  {
    if |a| > 0 && a[0] == b[0] && b[0] == c[0] {
      TextLeqTransitive(a[1..], b[1..], c[1..]);
    }
  }

  lemma {:induction false} TextLeqTotal(a: string, b: string)
    ensures TextLeq(a, b) || TextLeq(b, a)
  {
    if |a| > 0 && |b| > 0 && a[0] == b[0] {
      TextLeqTotal(a[1..], b[1..]);
    }
  }

  /**
   * `Leq` is a total order on items; in particular two items that compare equal
   * are the same item, so which of two equal heads is taken cannot show in the
   * emitted item.
   */
  lemma LeqIsTotalOrder()
    ensures forall a :: Leq(a, a)
    ensures forall a, b :: Leq(a, b) && Leq(b, a) ==> a == b
    ensures forall a, b, c :: Leq(a, b) && Leq(b, c) ==> Leq(a, c)
    ensures forall a, b :: Leq(a, b) || Leq(b, a)
  {
    forall a: Item
      ensures Leq(a, a)
    {
      TextLeqReflexive(a.text);
    }
    forall a: Item, b: Item | Leq(a, b) && Leq(b, a)
      ensures a == b
    {
      TextLeqAntisymmetric(a.text, b.text);
    }
    forall a: Item, b: Item, c: Item | Leq(a, b) && Leq(b, c)
      ensures Leq(a, c)
    {
      if a.ts == b.ts == c.ts {
        TextLeqTransitive(a.text, b.text, c.text);
      }
    }
    forall a: Item, b: Item
      ensures Leq(a, b) || Leq(b, a)
    {
      TextLeqTotal(a.text, b.text);
    }
  }

  /**
   * The greedy choice: the stream whose head is smallest, the lowest-numbered
   * one among equal heads; None when every stream is exhausted.
   */
  function Smallest(ss: seq<seq<Item>>): (r: Option<nat>)
    ensures r.None? <==> forall k :: 0 <= k < |ss| ==> |ss[k]| == 0
    ensures r.Some? ==> r.value < |ss| && |ss[r.value]| > 0
    ensures r.Some? ==> forall k :: 0 <= k < |ss| && |ss[k]| > 0 ==> Leq(ss[r.value][0], ss[k][0])
    ensures r.Some? ==> forall k :: 0 <= k < r.value && |ss[k]| > 0 ==> !Leq(ss[k][0], ss[r.value][0])
  {
    if |ss| == 0 then None
    else
      var init := ss[..|ss| - 1];
      var last := |ss| - 1;
      var best := Smallest(init);
      LeqIsTotalOrder();
      if |ss[last]| == 0 then best
      else if best.None? then Some(last)
      else if Leq(ss[best.value][0], ss[last][0]) then best
      else Some(last)
  }

  /** An emitted item and the number of the stream it came from. */
  datatype Tagged = Tagged(source: nat, item: Item)

  /** The number of items left in all streams. */
  function TotalSize(ss: seq<seq<Item>>): nat {
    if |ss| == 0 then 0 else |ss[0]| + TotalSize(ss[1..])
  }

  /** All the items left in all streams. */
  function Bag(ss: seq<seq<Item>>): multiset<Item> {
    if |ss| == 0 then multiset{} else multiset(ss[0]) + Bag(ss[1..])
  }

  lemma UpdateStream(ss: seq<seq<Item>>, m: nat, t: seq<Item>)
    requires m < |ss|
    ensures TotalSize(ss[m := t]) + |ss[m]| == TotalSize(ss) + |t|
    ensures Bag(ss[m := t]) + multiset(ss[m]) == Bag(ss) + multiset(t)
  {
    UpdateSize(ss, m, t);
    UpdateBag(ss, m, t);
  }

  lemma {:induction false} UpdateSize(ss: seq<seq<Item>>, m: nat, t: seq<Item>)
    requires m < |ss|
    ensures TotalSize(ss[m := t]) + |ss[m]| == TotalSize(ss) + |t|
  {
    if m > 0 {
      assert ss[m := t][1..] == ss[1..][m - 1 := t];
      UpdateSize(ss[1..], m - 1, t);
    } else {
      assert ss[m := t][1..] == ss[1..];
    }
  }

  lemma {:induction false} UpdateBag(ss: seq<seq<Item>>, m: nat, t: seq<Item>)
    requires m < |ss|
    ensures Bag(ss[m := t]) + multiset(ss[m]) == Bag(ss) + multiset(t)
  {
    if m > 0 {
      var u := ss[m := t];
      assert u[1..] == ss[1..][m - 1 := t];
      assert u[0] == ss[0] && ss[1..][m - 1] == ss[m];
      UpdateBag(ss[1..], m - 1, t);
      assert Bag(u) == multiset(ss[0]) + Bag(ss[1..][m - 1 := t]);
      forall x
        ensures (Bag(u) + multiset(ss[m]))[x] == (Bag(ss) + multiset(t))[x]
      {
        assert (Bag(ss[1..][m - 1 := t]) + multiset(ss[m]))[x] == (Bag(ss[1..]) + multiset(t))[x];
      }
    } else {
      assert ss[m := t][1..] == ss[1..];
    }
  }

  /** The merge, each emitted item tagged with the stream it came from. */
  function MergeTagged(ss: seq<seq<Item>>): (r: seq<Tagged>)
    ensures |r| == TotalSize(ss)
    ensures forall i :: 0 <= i < |r| ==> r[i].source < |ss|
    decreases TotalSize(ss)
  {
    match Smallest(ss)
    case None =>
      NoItemsLeft(ss);
      []
    case Some(m) =>
      UpdateStream(ss, m, ss[m][1..]);
      [Tagged(m, ss[m][0])] + MergeTagged(ss[m := ss[m][1..]])
  }

  lemma {:induction false} NoItemsLeft(ss: seq<seq<Item>>)
    requires forall k :: 0 <= k < |ss| ==> |ss[k]| == 0
    ensures TotalSize(ss) == 0 && Bag(ss) == multiset{}
  {
    if |ss| > 0 {
      NoItemsLeft(ss[1..]);
    }
  }

  /** `streams.into_iter().kmerge()`: the merged items. */
  function KMerge(ss: seq<seq<Item>>): (r: seq<Item>)
    ensures |r| == TotalSize(ss)
  {
    var t := MergeTagged(ss);
    seq(|t|, i requires 0 <= i < |t| => t[i].item)
  }

  lemma KMergeStep(ss: seq<seq<Item>>)
    ensures Smallest(ss).None? ==> KMerge(ss) == []
    ensures Smallest(ss).Some? ==>
              var m := Smallest(ss).value;
              KMerge(ss) == [ss[m][0]] + KMerge(ss[m := ss[m][1..]])
  {
  }

  /** The items of `t` that came from stream `k`, in emission order. */
  function FromSource(t: seq<Tagged>, k: nat): seq<Item> {
    if |t| == 0 then [] else (if t[0].source == k then [t[0].item] else []) + FromSource(t[1..], k)
  }

  /**
   * The merge keeps every stream whole and in order: picking out of the output
   * the items that came from stream `k` gives back exactly stream `k`.
   */
  lemma {:induction false} MergeKeepsEachStream(ss: seq<seq<Item>>, k: nat)
    requires k < |ss|
    ensures FromSource(MergeTagged(ss), k) == ss[k]
    decreases TotalSize(ss)
  {
    match Smallest(ss)
    case None =>
      assert ss[k] == [];
    case Some(m) =>
      var rest := ss[m := ss[m][1..]];
      UpdateStream(ss, m, ss[m][1..]);
      var t := MergeTagged(ss);
      assert t[1..] == MergeTagged(rest);
      MergeKeepsEachStream(rest, k);
      if m == k {
        assert ss[k] == [ss[k][0]] + ss[k][1..];
      }
  }

  /** The merge emits exactly the items of all the streams: a permutation of their union. */
  lemma {:induction false} MergeIsPermutation(ss: seq<seq<Item>>)
    ensures multiset(KMerge(ss)) == Bag(ss)
    decreases TotalSize(ss)
  {
    KMergeStep(ss);
    var r := Smallest(ss);
    if r.None? {
      NoItemsLeft(ss);
    } else {
      var m := r.value;
      var h := ss[m][0];
      var tail := ss[m][1..];
      var rest := ss[m := tail];
      UpdateStream(ss, m, tail);
      MergeIsPermutation(rest);
      assert KMerge(ss) == [h] + KMerge(rest);
      assert ss[m] == [h] + tail;
      ConsBag(h, tail, KMerge(rest), Bag(rest), Bag(ss));
    }
  }

  lemma ConsBag(h: Item, tail: seq<Item>, s: seq<Item>, rest: multiset<Item>, all: multiset<Item>)
    requires multiset(s) == rest
    requires rest + multiset([h] + tail) == all + multiset(tail)
    ensures multiset([h] + s) == all
  {
    assert multiset([h] + tail) == multiset{h} + multiset(tail);
    assert multiset([h] + s) == multiset{h} + multiset(s);
    forall x
      ensures multiset([h] + s)[x] == all[x]
    {
      assert (rest + multiset([h] + tail))[x] == (all + multiset(tail))[x];
    }
  }

  /** Non-decreasing under the merge order. */
  predicate Sorted(s: seq<Item>) {
    forall i, j :: 0 <= i < j < |s| ==> Leq(s[i], s[j])
  }

  /** A property every item left in the streams has, every item emitted has. */
  lemma {:induction false} MergeKeeps(ss: seq<seq<Item>>, p: Item -> bool)
    requires forall k, j :: 0 <= k < |ss| && 0 <= j < |ss[k]| ==> p(ss[k][j])
    ensures forall i :: 0 <= i < |KMerge(ss)| ==> p(KMerge(ss)[i])
    decreases TotalSize(ss)
  {
    KMergeStep(ss);
    match Smallest(ss)
    case None =>
    case Some(m) =>
      var rest := ss[m := ss[m][1..]];
      UpdateSize(ss, m, ss[m][1..]);
      forall k, j | 0 <= k < |rest| && 0 <= j < |rest[k]|
        ensures p(rest[k][j])
      {
        if k == m {
          assert rest[k][j] == ss[m][j + 1];
        } else {
          assert rest[k][j] == ss[k][j];
        }
      }
      MergeKeeps(rest, p);
      var out := KMerge(ss);
      assert out == [ss[m][0]] + KMerge(rest);
      forall i | 0 <= i < |out|
        ensures p(out[i])
      {
        if i > 0 {
          assert out[i] == KMerge(rest)[i - 1];
        }
      }
  }

  /** A bound below every item left in the streams is a bound below every item emitted. */
  lemma MergeBoundedBelow(ss: seq<seq<Item>>, b: Item)
    requires forall k, j :: 0 <= k < |ss| && 0 <= j < |ss[k]| ==> Leq(b, ss[k][j])
    ensures forall i :: 0 <= i < |KMerge(ss)| ==> Leq(b, KMerge(ss)[i])
  {
    MergeKeeps(ss, x => Leq(b, x));
  }

  /** If every stream is sorted, so is the merge. */
  lemma {:induction false} MergeSorted(ss: seq<seq<Item>>)
    requires forall k :: 0 <= k < |ss| ==> Sorted(ss[k])
    ensures Sorted(KMerge(ss))
    decreases TotalSize(ss)
  {
    KMergeStep(ss);
    var r := Smallest(ss);
    if r.Some? {
      var m := r.value;
      var h := ss[m][0];
      var rest := ss[m := ss[m][1..]];
      UpdateStream(ss, m, ss[m][1..]);
      SmallestHeadBelowRest(ss, m);
      MergeSorted(rest);
      MergeBoundedBelow(rest, h);
      ConsSorted(h, KMerge(rest));
    }
  }

  /** With sorted streams, the smallest head is below everything that remains after it is taken. */
  lemma SmallestHeadBelowRest(ss: seq<seq<Item>>, m: nat)
    requires forall k :: 0 <= k < |ss| ==> Sorted(ss[k])
    requires Smallest(ss) == Some(m)
    ensures var rest := ss[m := ss[m][1..]];
            && (forall k :: 0 <= k < |rest| ==> Sorted(rest[k]))
            && forall k, j :: 0 <= k < |rest| && 0 <= j < |rest[k]| ==> Leq(ss[m][0], rest[k][j])
  {
    var h := ss[m][0];
    var rest := ss[m := ss[m][1..]];
    LeqIsTotalOrder();
    forall k | 0 <= k < |rest|
      ensures Sorted(rest[k])
    {
      if k == m {
        forall i, j | 0 <= i < j < |rest[k]|
          ensures Leq(rest[k][i], rest[k][j])
        {
          assert rest[k][i] == ss[m][i + 1] && rest[k][j] == ss[m][j + 1];
        }
      }
    }
    forall k, j | 0 <= k < |rest| && 0 <= j < |rest[k]|
      ensures Leq(h, rest[k][j])
    {
      if k == m {
        assert rest[k][j] == ss[m][j + 1];
        assert Leq(ss[m][0], ss[m][j + 1]);
      } else {
        assert Leq(h, ss[k][0]);
        if j > 0 {
          assert Leq(ss[k][0], ss[k][j]);
        }
      }
    }
  }

  lemma ConsSorted(h: Item, s: seq<Item>)
    requires Sorted(s)
    requires forall i :: 0 <= i < |s| ==> Leq(h, s[i])
    ensures Sorted([h] + s)
  {
    var t := [h] + s;
    forall i, j | 0 <= i < j < |t|
      ensures Leq(t[i], t[j])
    {
      if i > 0 {
        assert t[i] == s[i - 1] && t[j] == s[j - 1];
      } else {
        assert t[j] == s[j - 1];
      }
    }
  }

  /** The first item of a sorted sequence is below each of its items. */
  lemma SortedHeadIsLeast(a: seq<Item>, x: Item)
    requires Sorted(a) && x in multiset(a)
    ensures Leq(a[0], x)
  {
    var i :| 0 <= i < |a| && a[i] == x;
    if i == 0 {
      LeqIsTotalOrder();
    }
  }

  /** Two sorted sequences holding the same items are the same sequence. */
  lemma {:induction false} SortedPermutationsAgree(a: seq<Item>, b: seq<Item>)
    requires Sorted(a) && Sorted(b) && multiset(a) == multiset(b)
    ensures a == b
  {
    if |a| > 0 {
      assert |b| == |multiset(b)| == |multiset(a)| == |a|;
      SortedHeadIsLeast(a, b[0]);
      SortedHeadIsLeast(b, a[0]);
      LeqIsTotalOrder();
      assert a[0] == b[0];
      SortedTail(a);
      SortedTail(b);
      assert a == [a[0]] + a[1..] && b == [b[0]] + b[1..];
      TailBags(a);
      TailBags(b);
      SortedPermutationsAgree(a[1..], b[1..]);
    }
  }

  lemma SortedTail(a: seq<Item>)
    requires Sorted(a) && |a| > 0
    ensures Sorted(a[1..])
  {
    forall i, j | 0 <= i < j < |a| - 1
      ensures Leq(a[1..][i], a[1..][j])
    {
      assert a[1..][i] == a[i + 1] && a[1..][j] == a[j + 1];
    }
  }

  lemma TailBags(a: seq<Item>)
    requires |a| > 0
    ensures multiset(a[1..]) == multiset(a) - multiset{a[0]}
  {
    assert a == [a[0]] + a[1..];
    assert multiset(a) == multiset{a[0]} + multiset(a[1..]);
  }

  /**
   * With sorted sources the output is fully determined by the items: listing the
   * same sources in another order, or splitting the same items differently
   * between sources, gives byte-identical output.
   */
  lemma {:induction false} MergeDeterministic(ss: seq<seq<Item>>, tt: seq<seq<Item>>)
    requires forall k :: 0 <= k < |ss| ==> Sorted(ss[k])
    requires forall k :: 0 <= k < |tt| ==> Sorted(tt[k])
    requires Bag(ss) == Bag(tt)
    ensures KMerge(ss) == KMerge(tt)
  {
    MergeSorted(ss);
    MergeSorted(tt);
    MergeIsPermutation(ss);
    MergeIsPermutation(tt);
    SortedPermutationsAgree(KMerge(ss), KMerge(tt));
  }

  /**
   * On streams that are not sorted, equal heads in two streams make the
   * tie-break visible: listing the same two streams in the other order changes
   * the merged sequence.
   */
  lemma TieBreakShowsOnUnsortedStreams()
    ensures var x := Item(Some(2), "x");
            var a := Item(Some(1), "a");
            var b := Item(Some(1), "b");
            && KMerge([[x, a], [x, b]]) == [x, a, x, b]
            && KMerge([[x, b], [x, a]]) == [x, b, x, a]
  {
    var x := Item(Some(2), "x");
    var a := Item(Some(1), "a");
    var b := Item(Some(1), "b");
    TieBreakRun(x, a, b);
    TieBreakRun(x, b, a);
  }

  /** The merge of `[x, u]` and `[x, v]` when `u` and `v` both come before `x`. */
  lemma TieBreakRun(x: Item, u: Item, v: Item)
    requires !Leq(x, u) && !Leq(x, v)
    ensures KMerge([[x, u], [x, v]]) == [x, u, x, v]
  {
    var s0 := [[x, u], [x, v]];
    var s1 := [[u], [x, v]];
    TieBreakSecond(x, u, v);
    KMergeStep(s0);
    assert Smallest(s0) == Some(0);
    assert s0[0 := s0[0][1..]] == s1;
  }

  lemma TieBreakSecond(x: Item, u: Item, v: Item)
    requires !Leq(x, u)
    ensures KMerge([[u], [x, v]]) == [u, x, v]
  {
    var s1 := [[u], [x, v]];
    var s2: seq<seq<Item>> := [[], [x, v]];
    TieBreakLast(x, v);
    KMergeStep(s1);
    assert Smallest(s1) == Some(0);
    assert s1[0 := s1[0][1..]] == s2;
  }

  /** With one stream left, the merge is that stream. */
  lemma TieBreakLast(x: Item, v: Item)
    ensures KMerge([[], [x, v]]) == [x, v]
  {
    var s2: seq<seq<Item>> := [[], [x, v]];
    var s3: seq<seq<Item>> := [[], [v]];
    var s4: seq<seq<Item>> := [[], []];
    KMergeStep(s4);
    KMergeStep(s3);
    assert Smallest(s3) == Some(1);
    assert s3[1 := s3[1][1..]] == s4;
    KMergeStep(s2);
    assert Smallest(s2) == Some(1);
    assert s2[1 := s2[1][1..]] == s3;
  }
}
