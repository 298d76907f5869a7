/** Intersection over union, and greedy non-maximum suppression. */
module Suppression {
  import opened Prelude
  import opened Sorting
  import opened Detections

  // ----- Intersection over union -----

  function Iou(a: Rect, b: Rect): real {
    var (ax2, ay2) := (a.x + a.w, a.y + a.h);
    var (bx2, by2) := (b.x + b.w, b.y + b.h);
    var (ix, iy) := (Max(a.x, b.x), Max(a.y, b.y));
    var (ix2, iy2) := (Min(ax2, bx2), Min(ay2, by2));
    var (iw, ih) := (ix2 - ix, iy2 - iy);
    if iw <= 0 || ih <= 0 then 0.0
    else
      var inter := (iw * ih) as real;
      var union := (a.w * a.h + b.w * b.h) as real - inter;
      if union <= 0.0 then 0.0 else inter / union
  }

  lemma IouSymmetric(a: Rect, b: Rect)
    ensures Iou(a, b) == Iou(b, a)
  {
    assert a.w * a.h + b.w * b.h == b.w * b.h + a.w * a.h;
  }

  lemma MulMono(a: int, b: int, c: int, d: int)
    requires 0 <= a <= c && 0 <= b <= d
    ensures 0 <= a * b <= c * d
  {
    assert a * b <= c * b;
    assert c * b <= c * d;
  }

  lemma RatioInUnit(n: real, d: real)
    requires 0.0 <= n <= d && 0.0 < d
    ensures 0.0 <= n / d <= 1.0
  {
  }

  /** For boxes of non-negative size the measure is in the unit interval. */
  lemma IouInUnit(a: Rect, b: Rect)
    requires a.w >= 0 && a.h >= 0 && b.w >= 0 && b.h >= 0
    ensures 0.0 <= Iou(a, b) <= 1.0
  {
    var iw := Min(a.x + a.w, b.x + b.w) - Max(a.x, b.x);
    var ih := Min(a.y + a.h, b.y + b.h) - Max(a.y, b.y);
    if iw > 0 && ih > 0 {
      MulMono(iw, ih, a.w, a.h);
      MulMono(iw, ih, b.w, b.h);
      var inter := (iw * ih) as real;
      var union := (a.w * a.h + b.w * b.h) as real - inter;
      assert inter <= union;
      if union > 0.0 {
        RatioInUnit(inter, union);
      }
    }
  }

  /** It reaches 1 on a box of positive area against itself. */
  lemma IouSelf(a: Rect)
    requires a.w > 0 && a.h > 0
    ensures Iou(a, a) == 1.0
  {
    assert a.w * a.h >= 1 by {
      MulMono(1, 1, a.w, a.h);
    }
    var inter := (a.w * a.h) as real;
    assert (a.w * a.h + a.w * a.h) as real - inter == inter;
    assert inter / inter == 1.0;
  }

  // ----- What the measure measures -----

  /** The unit cells a box covers. */
  ghost function Cells(r: Rect): set<(int, int)> {
    set x, y | r.x <= x < r.x + r.w && r.y <= y < r.y + r.h :: (x, y)
  }

  lemma {:induction false} ColumnSize(x: int, y: int, h: nat)
    ensures |Cells(Rect(x, y, 1, h))| == h
  {
    if h == 0 {
      assert Cells(Rect(x, y, 1, 0)) == {};
    } else {
      ColumnSize(x, y, h - 1);
      assert Cells(Rect(x, y, 1, h)) == Cells(Rect(x, y, 1, h - 1)) + {(x, y + h - 1)};
    }
  }

  /** A box covers width times height cells. */
  lemma {:induction false} CellCount(x: int, y: int, w: nat, h: nat)
    ensures |Cells(Rect(x, y, w, h))| == w * h
  {
    if w == 0 {
      assert Cells(Rect(x, y, 0, h)) == {};
    } else {
      CellCount(x, y, w - 1, h);
      ColumnSize(x + w - 1, y, h);
      var (left, column) := (Cells(Rect(x, y, w - 1, h)), Cells(Rect(x + w - 1, y, 1, h)));
      assert left !! column && Cells(Rect(x, y, w, h)) == left + column;
      assert (w - 1) * h + h == w * h;
    }
  }

  /** The shared cells form the box the measure intersects. */
  lemma SharedCells(a: Rect, b: Rect)
    ensures var (ix, iy) := (Max(a.x, b.x), Max(a.y, b.y));
            var (iw, ih) := (Min(a.x + a.w, b.x + b.w) - ix, Min(a.y + a.h, b.y + b.h) - iy);
            Cells(a) * Cells(b) == if iw <= 0 || ih <= 0 then {} else Cells(Rect(ix, iy, iw, ih))
  {
  }

  /** The measure is the number of shared cells over the number of cells covered by either box. */
  lemma IouCountsCells(a: Rect, b: Rect)
    requires a.w >= 0 && a.h >= 0 && b.w >= 0 && b.h >= 0
    ensures var (shared, either) := (Cells(a) * Cells(b), Cells(a) + Cells(b));
            Iou(a, b) == if |either| == 0 then 0.0 else |shared| as real / |either| as real
  {
    CellCount(a.x, a.y, a.w, a.h);
    CellCount(b.x, b.y, b.w, b.h);
    SharedCells(a, b);
    var (ix, iy) := (Max(a.x, b.x), Max(a.y, b.y));
    var (iw, ih) := (Min(a.x + a.w, b.x + b.w) - ix, Min(a.y + a.h, b.y + b.h) - iy);
    var (shared, either) := (Cells(a) * Cells(b), Cells(a) + Cells(b));
    assert |either| == a.w * a.h + b.w * b.h - |shared|;
    if iw > 0 && ih > 0 {
      CellCount(ix, iy, iw, ih);
      assert (a.w * a.h + b.w * b.h) as real - (iw * ih) as real == |either| as real;
    } else if |either| > 0 {
      ZeroOver(|either| as real);
    }
  }

  lemma ZeroOver(d: real)
    requires d != 0.0
    ensures 0.0 / d == 0.0
  {
  }

  // ----- Suppression -----

  function ByConfidence(): (Detection, Detection) -> bool {
    (a: Detection, b: Detection) => a.confidence >= b.confidence
  }

  function Ranked(dets: seq<Detection>): seq<Detection> {
    Sort(dets, ByConfidence())
  }

  /** `n` overlaps `k` beyond the threshold. */
  function Clash(thresh: real): (Detection, Detection) -> bool {
    (k: Detection, n: Detection) => !(Iou(k.rect, n.rect) <= thresh)
  }

  ghost function Survivors(dets: seq<Detection>, thresh: real): seq<Detection> {
    At(Ranked(dets), Kept(Ranked(dets), Clash(thresh), |Ranked(dets)|))
  }

  /** `d` stays within the threshold of every kept box. */
  predicate Clears(kept: seq<Detection>, d: Detection, thresh: real) {
    forall k :: 0 <= k < |kept| ==> Iou(kept[k].rect, d.rect) <= thresh
  }

  lemma ClearsIsFree(kept: seq<Detection>, d: Detection, thresh: real)
    ensures Clears(kept, d, thresh) <==> Free(kept, Clash(thresh), d)
  {
    assert forall k :: 0 <= k < |kept| ==> (Clash(thresh)(kept[k], d) <==> !(Iou(kept[k].rect, d.rect) <= thresh));
  }

  /** `nms`. */
  method Nms(dets: seq<Detection>, thresh: real) returns (keep: seq<Detection>)
    ensures keep == Survivors(dets, thresh)
  {
    var ranked := Sort(dets, ByConfidence());
    keep := [];
    for i := 0 to |ranked|
      invariant keep == At(ranked, Kept(ranked, Clash(thresh), i))
    {
      ClearsIsFree(keep, ranked[i], thresh);
      if Clears(keep, ranked[i], thresh) {
        keep := keep + [ranked[i]];
      }
    }
  }

  /** What survives: the ranking is a permutation of the input by falling confidence, the survivors
      are a subsequence of it (so sorted too) and pairwise within the threshold, and every dropped
      position is beyond the threshold of a kept one ranked before it, of at least its confidence. */
  lemma NmsSelects(dets: seq<Detection>, thresh: real)
    ensures var s := Ranked(dets);
            var idx := Kept(s, Clash(thresh), |s|);
            && multiset(s) == multiset(dets) && SortedBy(s, ByConfidence())
            && Survivors(dets, thresh) == At(s, idx) && SortedBy(Survivors(dets, thresh), ByConfidence())
            && Selection(s, Clash(thresh), idx, |s|)
  {
    SortSorts(dets, ByConfidence());
    var s := Ranked(dets);
    KeptSelects(s, Clash(thresh), |s|);
    AtSorted(s, Kept(s, Clash(thresh), |s|), ByConfidence());
  }

  /** Each box of the input is kept, or beaten by a kept box of at least its confidence. */
  lemma EveryBoxKeptOrBeaten(dets: seq<Detection>, thresh: real, d: Detection)
    requires d in dets
    ensures d in Survivors(dets, thresh) ||
            exists k :: k in Survivors(dets, thresh) && Iou(k.rect, d.rect) > thresh && k.confidence >= d.confidence
  {
    NmsSelects(dets, thresh);
    var s := Ranked(dets);
    var idx := Kept(s, Clash(thresh), |s|);
    assert d in multiset(s);
    var i :| 0 <= i < |s| && s[i] == d;
    if i !in idx {
      var j :| 0 <= j < |idx| && Beats(s, Clash(thresh), idx[j], i);
      assert ByConfidence()(s[idx[j]], s[i]) && Clash(thresh)(s[idx[j]], s[i]);
      assert At(s, idx)[j] in Survivors(dets, thresh);
    } else {
      var j :| 0 <= j < |idx| && idx[j] == i;
      assert At(s, idx)[j] == d;
    }
  }

  /** Survivors are pairwise within the threshold. */
  lemma SurvivorsApart(dets: seq<Detection>, thresh: real, k: nat, l: nat)
    requires k < l < |Survivors(dets, thresh)|
    ensures Iou(Survivors(dets, thresh)[k].rect, Survivors(dets, thresh)[l].rect) <= thresh
  {
    NmsSelects(dets, thresh);
    var s := Ranked(dets);
    var idx := Kept(s, Clash(thresh), |s|);
    assert idx[k] < idx[l] && !Clash(thresh)(s[idx[k]], s[idx[l]]);
  }

  /** A second run changes nothing. */
  lemma NmsIdempotent(dets: seq<Detection>, thresh: real)
    ensures Survivors(Survivors(dets, thresh), thresh) == Survivors(dets, thresh)
  {
    NmsSelects(dets, thresh);
    var keep := Survivors(dets, thresh);
    SortIdentity(keep, ByConfidence());
    AllKept(keep, Clash(thresh), |keep|);
    assert keep[..|keep|] == keep;
  }

  // ----- Greedy selection under an arbitrary clash relation -----

  ghost predicate Free<T>(kept: seq<T>, clash: (T, T) -> bool, d: T) {
    forall k :: 0 <= k < |kept| ==> !clash(kept[k], d)
  }

  ghost predicate Positions(idx: seq<nat>, n: nat) {
    forall k :: 0 <= k < |idx| ==> idx[k] < n
  }

  ghost function At<T>(s: seq<T>, idx: seq<nat>): (r: seq<T>)
    requires Positions(idx, |s|)
    ensures |r| == |idx| && forall k :: 0 <= k < |r| ==> r[k] == s[idx[k]]
  {
    seq(|idx|, k requires 0 <= k < |idx| => s[idx[k]])
  }

  /** The positions of `s` below `n` kept by going left to right and dropping what clashes with
      something kept. */
  ghost function Kept<T>(s: seq<T>, clash: (T, T) -> bool, n: nat): (r: seq<nat>)
    requires n <= |s|
    ensures Positions(r, n)
  {
    if n == 0 then [] else Extend(s, clash, Kept(s, clash, n - 1), n - 1)
  }

  /** Position `n` joins the kept ones unless one of them clashes with it. */
  ghost function Extend<T>(s: seq<T>, clash: (T, T) -> bool, prev: seq<nat>, n: nat): (r: seq<nat>)
    requires n < |s| && Positions(prev, n)
    ensures Positions(r, n + 1)
  {
    if Free(At(s, prev), clash, s[n]) then prev + [n] else prev
  }

  ghost predicate Beats<T>(s: seq<T>, clash: (T, T) -> bool, k: nat, i: nat) {
    k < i < |s| && clash(s[k], s[i])
  }

  ghost predicate Beaten<T>(s: seq<T>, clash: (T, T) -> bool, idx: seq<nat>, i: nat) {
    exists k :: 0 <= k < |idx| && Beats(s, clash, idx[k], i)
  }

  /** `idx` is an increasing, clash-free list of positions below `n` whose members beat all others. */
  ghost predicate Selection<T>(s: seq<T>, clash: (T, T) -> bool, idx: seq<nat>, n: nat) {
    && n <= |s| && Positions(idx, n)
    && (forall k, l :: 0 <= k < l < |idx| ==> idx[k] < idx[l] && !clash(s[idx[k]], s[idx[l]]))
    && (forall i: nat :: i < n && i !in idx ==> Beaten(s, clash, idx, i))
  }

  lemma {:induction false} KeptSelects<T>(s: seq<T>, clash: (T, T) -> bool, n: nat)
    requires n <= |s|
    ensures Selection(s, clash, Kept(s, clash, n), n)
  {
    if n > 0 {
      KeptSelects(s, clash, n - 1);
      SelectionStep(s, clash, Kept(s, clash, n - 1), n - 1);
    }
  }

  lemma SelectionStep<T>(s: seq<T>, clash: (T, T) -> bool, prev: seq<nat>, n: nat)
    requires n < |s| && Selection(s, clash, prev, n)
    ensures Selection(s, clash, Extend(s, clash, prev, n), n + 1)
  {
    if Free(At(s, prev), clash, s[n]) {
      SelectionKeeps(s, clash, prev, n);
    } else {
      var k :| 0 <= k < |prev| && clash(At(s, prev)[k], s[n]);
      SelectionDrops(s, clash, prev, n, k);
    }
  }

  lemma SelectionDrops<T>(s: seq<T>, clash: (T, T) -> bool, prev: seq<nat>, n: nat, k: nat)
    requires n < |s| && Selection(s, clash, prev, n) && k < |prev| && clash(s[prev[k]], s[n])
    ensures Selection(s, clash, prev, n + 1)
  {
    assert Beats(s, clash, prev[k], n);
  }

  lemma SelectionKeeps<T>(s: seq<T>, clash: (T, T) -> bool, prev: seq<nat>, n: nat)
    requires n < |s| && Selection(s, clash, prev, n)
    requires Free(At(s, prev), clash, s[n])
    ensures Selection(s, clash, prev + [n], n + 1)
  {
    var r := prev + [n];
    assert forall k :: 0 <= k < |prev| ==> !clash(At(s, prev)[k], s[n]);
    forall i: nat | i < n + 1 && i !in r
      ensures Beaten(s, clash, r, i)
    {
      assert i != n by {
        assert r[|prev|] == n;
      }
      var k :| 0 <= k < |prev| && Beats(s, clash, prev[k], i);
      assert r[k] == prev[k];
    }
  }

  lemma AtSorted<T>(s: seq<T>, idx: seq<nat>, le: (T, T) -> bool)
    requires SortedBy(s, le) && Positions(idx, |s|)
    requires forall k, l :: 0 <= k < l < |idx| ==> idx[k] < idx[l]
    ensures SortedBy(At(s, idx), le)
  {
  }

  lemma {:induction false} AllKept<T>(s: seq<T>, clash: (T, T) -> bool, n: nat)
    requires n <= |s|
    requires forall k, l :: 0 <= k < l < |s| ==> !clash(s[k], s[l])
    ensures At(s, Kept(s, clash, n)) == s[..n]
  {
    if n > 0 {
      AllKept(s, clash, n - 1);
      FreeExtends(s, clash, Kept(s, clash, n - 1), n - 1);
    }
  }

  lemma FreeExtends<T>(s: seq<T>, clash: (T, T) -> bool, prev: seq<nat>, n: nat)
    requires n < |s| && Positions(prev, n) && At(s, prev) == s[..n]
    requires forall k :: 0 <= k < n ==> !clash(s[k], s[n])
    ensures At(s, Extend(s, clash, prev, n)) == s[..n + 1]
  {
    assert forall k :: 0 <= k < n ==> s[..n][k] == s[k];
    assert At(s, prev + [n]) == At(s, prev) + [s[n]];
  }

  // ----- Ties -----

  /** Boxes of equal confidence keep their order in the ranking. */
  lemma TiesKeepOrder(dets: seq<Detection>, c: real)
    ensures WithConfidence(Ranked(dets), c) == WithConfidence(dets, c)
  {
    SortStable(dets, ByConfidence(), (d: Detection) => d.confidence == c);
  }

  ghost function WithConfidence(dets: seq<Detection>, c: real): seq<Detection> {
    Filter(dets, (d: Detection) => d.confidence == c)
  }
}
