/**
 * The guillotine packer of src/render/atlas.rs. The atlas keeps a list of free rectangles;
 * a request, grown by the padding on every side, takes the free rectangle it fits best,
 * and what is left of that rectangle goes back on the list as at most two strips.
 *
 * Rectangles are integer-positioned: the cell (px, py) belongs to a rectangle when
 * x <= px < x + width and y <= py < y + height, so one without positive width and height
 * covers nothing.
 */
module Atlas {
  import opened Common

  datatype Rect = Rect(x: int, y: int, width: int, height: int)

  /** The rectangle covers no cell. */
  predicate Empty(r: Rect)
  {
    r.width <= 0 || r.height <= 0
  }

  /** Cell (px, py) lies in `r`. */
  predicate Covers(r: Rect, px: int, py: int)
  {
    r.x <= px < r.x + r.width && r.y <= py < r.y + r.height
  }

  /** No cell lies in both: one is empty, or they are apart along an axis. */
  predicate Disjoint(a: Rect, b: Rect)
  {
    Empty(a) || Empty(b) ||
    a.x + a.width <= b.x || b.x + b.width <= a.x ||
    a.y + a.height <= b.y || b.y + b.height <= a.y
  }

  /** Every cell of `a` lies in `c`. */
  predicate Within(a: Rect, c: Rect)
  {
    Empty(a) || (c.x <= a.x && a.x + a.width <= c.x + c.width && c.y <= a.y && a.y + a.height <= c.y + c.height)
  }

  /** `Disjoint` says exactly that no cell lies in both rectangles. */
  lemma LemmaDisjointMeansNoCommonCell(a: Rect, b: Rect)
    ensures Disjoint(a, b) <==> forall px, py :: !(Covers(a, px, py) && Covers(b, px, py))
  {
    if !Disjoint(a, b) {
      var px := if a.x < b.x then b.x else a.x;
      var py := if a.y < b.y then b.y else a.y;
      assert Covers(a, px, py) && Covers(b, px, py);
    }
  }

  /** `Within` says exactly that every cell of `a` lies in `c`. */
  lemma LemmaWithinMeansSubset(a: Rect, c: Rect)
    ensures Within(a, c) <==> forall px, py :: Covers(a, px, py) ==> Covers(c, px, py)
  {
    if !Within(a, c) {
      assert !Empty(a);
      if !(c.x <= a.x) {
        assert Covers(a, a.x, a.y) && !Covers(c, a.x, a.y);
      } else if !(a.x + a.width <= c.x + c.width) {
        assert Covers(a, a.x + a.width - 1, a.y) && !Covers(c, a.x + a.width - 1, a.y);
      } else if !(c.y <= a.y) {
        assert Covers(a, a.x, a.y) && !Covers(c, a.x, a.y);
      } else {
        assert Covers(a, a.x, a.y + a.height - 1) && !Covers(c, a.x, a.y + a.height - 1);
      }
    }
  }

  lemma LemmaWithinDisjoint(a: Rect, c: Rect, d: Rect)
    requires Within(a, c) && Disjoint(c, d)
    ensures Disjoint(a, d)
  {
  }

  /** The request, grown by the padding, fits in `free` (the source also asks for a non-negative score). */
  predicate Fits(free: Rect, w: int, h: int)
  {
    Score(free, w, h) >= 0 && free.width >= w && free.height >= h
  }

  /** How much area a fit wastes: the product of the spare width and the spare height. */
  function Score(free: Rect, w: int, h: int): int
  {
    (free.width - w) * (free.height - h)
  }

  lemma LemmaFitScoreNonNegative(free: Rect, w: int, h: int)
    requires free.width >= w && free.height >= h
    ensures Score(free, w, h) >= 0
  {
  }

  /**
   * The index the scan of `find` settles on among the first `n` free rectangles: a fitting
   * one whose score is strictly below that of the one held so far replaces it.
   */
  function BestOf(rects: seq<Rect>, w: int, h: int, n: nat): (best: Option<nat>)
    requires n <= |rects|
    ensures best.Some? ==> best.value < n
  {
    if n == 0 then None
    else
      var prev := BestOf(rects, w, h, n - 1);
      if Fits(rects[n - 1], w, h) && (prev.None? || Score(rects[prev.value], w, h) > Score(rects[n - 1], w, h))
      then Some(n - 1)
      else prev
  }

  /**
   * Index `i` is the best fit among the first `n`: it fits, every earlier fitting rectangle
   * scores strictly worse, and no later one scores better.
   */
  predicate IsBest(rects: seq<Rect>, w: int, h: int, n: nat, i: nat)
    requires n <= |rects|
  {
    i < n && Fits(rects[i], w, h) &&
    (forall j :: 0 <= j < i && Fits(rects[j], w, h) ==> Score(rects[j], w, h) > Score(rects[i], w, h)) &&
    (forall j :: i < j < n && Fits(rects[j], w, h) ==> Score(rects[j], w, h) >= Score(rects[i], w, h))
  }

  /** The scan finds nothing exactly when nothing fits, and otherwise finds the best fit. */
  lemma {:induction false} LemmaBestOf(rects: seq<Rect>, w: int, h: int, n: nat)
    requires n <= |rects|
    ensures BestOf(rects, w, h, n).None? <==> forall j :: 0 <= j < n ==> !Fits(rects[j], w, h)
    ensures BestOf(rects, w, h, n).Some? ==> IsBest(rects, w, h, n, BestOf(rects, w, h, n).value)
  {
    if n > 0 {
      LemmaBestOf(rects, w, h, n - 1);
    }
  }

  /** There is at most one best fit. */
  lemma LemmaBestIsUnique(rects: seq<Rect>, w: int, h: int, n: nat, i: nat, k: nat)
    requires n <= |rects| && IsBest(rects, w, h, n, i) && IsBest(rects, w, h, n, k)
    ensures i == k
  {
  }

  /** Once the held rectangle scores 0 no later one can replace it, which is why the scan may stop there. */
  lemma {:induction false} LemmaPerfectFitStays(rects: seq<Rect>, w: int, h: int, n: nat, m: nat)
    requires n <= m <= |rects|
    requires BestOf(rects, w, h, n).Some? && Score(rects[BestOf(rects, w, h, n).value], w, h) == 0
    ensures BestOf(rects, w, h, m) == BestOf(rects, w, h, n)
    decreases m - n
  {
    if n < m {
      LemmaPerfectFitStays(rects, w, h, n, m - 1);
      if Fits(rects[m - 1], w, h) {
        LemmaFitScoreNonNegative(rects[m - 1], w, h);
      }
    }
  }

  /**
   * What `find` puts back of the chosen rectangle `c` after taking a `w` by `h` corner: the
   * strip to the right when `c` is wider, then the strip below (as wide as the request once
   * the right strip has been cut off) when `c` is taller.
   */
  function Split(c: Rect, w: int, h: int): seq<Rect>
  {
    var cut := if c.width - w > 0 then c.(width := w) else c;
    (if c.width - w > 0 then [Rect(c.x + w, c.y, c.width - w, c.height)] else []) +
    (if cut.height - h > 0 then [Rect(cut.x, cut.y + h, cut.width, cut.height - h)] else [])
  }

  /** The corner a request takes from the chosen rectangle `c`. */
  function Placement(c: Rect, w: int, h: int): Rect
  {
    Rect(c.x, c.y, w, h)
  }

  /** The placement and the strips lie in `c` and are pairwise disjoint. */
  lemma LemmaSplitPieces(c: Rect, w: int, h: int)
    requires 0 <= w <= c.width && 0 <= h <= c.height
    ensures Within(Placement(c, w, h), c)
    ensures forall s :: s in Split(c, w, h) ==> Within(s, c) && Disjoint(s, Placement(c, w, h))
    ensures |Split(c, w, h)| == 2 ==> Disjoint(Split(c, w, h)[0], Split(c, w, h)[1])
  {
    var right := Rect(c.x + w, c.y, c.width - w, c.height);
    var bottom := Rect(c.x, c.y + h, w, c.height - h);
    assert Split(c, w, h) == (if c.width - w > 0 then [right] else []) + (if c.height - h > 0 then [bottom] else []);
  }

  /** Each cell of `c` lies in exactly one of the placement and the strips. */
  lemma LemmaSplitPartitions(c: Rect, w: int, h: int, px: int, py: int)
    requires 0 <= w <= c.width && 0 <= h <= c.height
    ensures Covers(c, px, py) <==>
              Covers(Placement(c, w, h), px, py) || exists s :: s in Split(c, w, h) && Covers(s, px, py)
    ensures Covers(Placement(c, w, h), px, py) ==> forall s :: s in Split(c, w, h) ==> !Covers(s, px, py)
    ensures |Split(c, w, h)| == 2 ==> !(Covers(Split(c, w, h)[0], px, py) && Covers(Split(c, w, h)[1], px, py))
  {
    var right := Rect(c.x + w, c.y, c.width - w, c.height);
    var bottom := Rect(c.x, c.y + h, w, c.height - h);
    assert c.width - w > 0 ==> right in Split(c, w, h);
    assert c.height - h > 0 ==> bottom in Split(c, w, h);
  }

  /** The area inside a placement once `padding` is taken off every side: what `find` returns. */
  function Inner(r: Rect, padding: int): Rect
  {
    Rect(r.x + padding, r.y + padding, r.width - 2 * padding, r.height - 2 * padding)
  }

  /**
   * One `find` of a `w` by `h` area (padding included) on the free list `frees`: the free
   * list afterwards and the placement, or `None` when no free rectangle fits.
   */
  function FindStep(frees: seq<Rect>, w: int, h: int): Option<(seq<Rect>, Rect)>
  {
    var best := BestOf(frees, w, h, |frees|);
    if best.None? then None
    else
      var i := best.value;
      Some((frees[..i] + frees[i + 1..] + Split(frees[i], w, h), Placement(frees[i], w, h)))
  }

  /**
   * Successive `find`s of the areas `sizes`, in order, each grown by `padding` on every side,
   * starting from the free list `frees`: the final free list and the placements in request
   * order, or `None` once a request does not fit.
   */
  function PackRun(frees: seq<Rect>, padding: int, sizes: seq<(int, int)>): (r: Option<(seq<Rect>, seq<Rect>)>)
    ensures r.Some? ==> |r.value.1| == |sizes|
  {
    if |sizes| == 0 then Some((frees, []))
    else
      var prev := PackRun(frees, padding, sizes[..|sizes| - 1]);
      var (w, h) := sizes[|sizes| - 1];
      if prev.None? then None
      else
        var step := FindStep(prev.value.0, w + 2 * padding, h + 2 * padding);
        if step.None? then None else Some((step.value.0, prev.value.1 + [step.value.1]))
  }

  /** The run of `sizes` from `frees` succeeds, leaving the free list `cur` and the placements `placed`. */
  predicate RunReaches(frees: seq<Rect>, padding: int, sizes: seq<(int, int)>, cur: seq<Rect>, placed: seq<Rect>)
  {
    var r := PackRun(frees, padding, sizes);
    r.Some? && r.value.0 == cur && r.value.1 == placed
  }

  /** A request that does not fit ends the run: no longer run gets past it. */
  lemma {:induction false} LemmaPackRunFailureSticks(frees: seq<Rect>, padding: int, sizes: seq<(int, int)>, n: nat)
    requires n <= |sizes| && PackRun(frees, padding, sizes[..n]).None?
    ensures PackRun(frees, padding, sizes).None?
    decreases |sizes|
  {
    if n < |sizes| {
      assert sizes[..|sizes| - 1][..n] == sizes[..n];
      LemmaPackRunFailureSticks(frees, padding, sizes[..|sizes| - 1], n);
    } else {
      assert sizes[..n] == sizes;
    }
  }

  /**
   * One step of a run that got to request `i`: when the next find fails the run ends there,
   * and when it succeeds the run over one more request has its free list and one more placement.
   */
  lemma LemmaPackRunStep(frees: seq<Rect>, padding: int, sizes: seq<(int, int)>, i: nat, w: int, h: int)
    requires i < |sizes| && sizes[i] == (w, h) && PackRun(frees, padding, sizes[..i]).Some?
    ensures var prev := PackRun(frees, padding, sizes[..i]).value;
            var step := FindStep(prev.0, w + 2 * padding, h + 2 * padding);
            (step.None? ==> PackRun(frees, padding, sizes).None?) &&
            (step.Some? ==> RunReaches(frees, padding, sizes[..i + 1], step.value.0, prev.1 + [step.value.1]))
  {
    assert sizes[..i + 1][..i] == sizes[..i];
    var prev := PackRun(frees, padding, sizes[..i]).value;
    if FindStep(prev.0, w + 2 * padding, h + 2 * padding).None? {
      LemmaPackRunFailureSticks(frees, padding, sizes, i + 1);
    }
  }

  /** A run's placements up to `n` are those of the run over the first `n` requests. */
  lemma {:induction false} LemmaPackRunPrefix(frees: seq<Rect>, padding: int, sizes: seq<(int, int)>, n: nat)
    requires n <= |sizes| && PackRun(frees, padding, sizes).Some?
    ensures PackRun(frees, padding, sizes[..n]).Some?
    ensures PackRun(frees, padding, sizes[..n]).value.1 == PackRun(frees, padding, sizes).value.1[..n]
    decreases |sizes|
  {
    if n < |sizes| {
      var init := sizes[..|sizes| - 1];
      assert init[..n] == sizes[..n];
      LemmaPackRunPrefix(frees, padding, init, n);
      assert PackRun(frees, padding, sizes).value.1[..|sizes| - 1] == PackRun(frees, padding, init).value.1;
    } else {
      assert sizes[..n] == sizes;
    }
  }

  /** Cell (px, py) lies in some rectangle of `rs`. */
  predicate InAny(rs: seq<Rect>, px: int, py: int)
  {
    exists k :: 0 <= k < |rs| && Covers(rs[k], px, py)
  }

  /** Every cell of the atlas is free or placed: no space is ever lost. */
  ghost predicate Covered(frees: seq<Rect>, placed: seq<Rect>, width: int, height: int)
  {
    forall px, py {:trigger InAny(frees, px, py)} :: 0 <= px < width && 0 <= py < height ==> InAny(frees, px, py) || InAny(placed, px, py)
  }

  /** A single free rectangle over the whole atlas covers it. */
  lemma LemmaWholeCovered(width: int, height: int)
    ensures Covered([Rect(0, 0, width, height)], [], width, height)
  {
    forall px, py | 0 <= px < width && 0 <= py < height
      ensures InAny([Rect(0, 0, width, height)], px, py)
    {
      assert [Rect(0, 0, width, height)][0] == Rect(0, 0, width, height);
    }
  }

  /** Taking the best fit out and putting its strips and its placement back keeps every cell covered. */
  lemma LemmaFindKeepsCovered(frees: seq<Rect>, placed: seq<Rect>, i: nat, w: int, h: int, width: int, height: int)
    requires i < |frees| && 0 <= w <= frees[i].width && 0 <= h <= frees[i].height
    requires Covered(frees, placed, width, height)
    ensures Covered(frees[..i] + frees[i + 1..] + Split(frees[i], w, h), placed + [Placement(frees[i], w, h)], width, height)
  {
    var c := frees[i];
    var rest := frees[..i] + frees[i + 1..];
    var pieces := Split(c, w, h);
    var frees' := rest + pieces;
    var placed' := placed + [Placement(c, w, h)];
    forall px, py | 0 <= px < width && 0 <= py < height
      ensures InAny(frees', px, py) || InAny(placed', px, py)
    {
      assert InAny(frees, px, py) || InAny(placed, px, py);
      if InAny(placed, px, py) {
        var k :| 0 <= k < |placed| && Covers(placed[k], px, py);
        assert placed'[k] == placed[k];
      } else {
        var k :| 0 <= k < |frees| && Covers(frees[k], px, py);
        if k < i {
          assert frees'[k] == frees[k];
        } else if k > i {
          assert frees'[k - 1] == frees[k];
        } else {
          LemmaSplitPartitions(c, w, h, px, py);
          if Covers(Placement(c, w, h), px, py) {
            assert placed'[|placed|] == Placement(c, w, h);
          } else {
            var s :| s in pieces && Covers(s, px, py);
            var m :| 0 <= m < |pieces| && pieces[m] == s;
            assert frees'[|rest| + m] == s;
          }
        }
      }
    }
  }

  /** Every rectangle of `rs` lies in the `width` by `height` atlas. */
  predicate AllInside(rs: seq<Rect>, width: int, height: int)
  {
    forall i :: 0 <= i < |rs| ==> Within(rs[i], Rect(0, 0, width, height))
  }

  predicate PairwiseDisjoint(rs: seq<Rect>)
  {
    forall i, j :: 0 <= i < j < |rs| ==> Disjoint(rs[i], rs[j])
  }

  predicate AllDisjoint(rs: seq<Rect>, qs: seq<Rect>)
  {
    forall i, j :: 0 <= i < |rs| && 0 <= j < |qs| ==> Disjoint(rs[i], qs[j])
  }

  class TextureAtlas {
    var freeRects: seq<Rect>
    const padding: int
    /** The atlas size the first free rectangle had. */
    ghost const width: int
    ghost const height: int
    /** Every area handed out so far, padding included. */
    ghost var placed: seq<Rect>

    /**
     * Free rectangles and placements lie in the atlas, no two of them share a cell, and
     * together they cover every cell of the atlas.
     */
    ghost predicate Valid()
      reads this
    {
      AllInside(freeRects, width, height) && AllInside(placed, width, height) &&
      PairwiseDisjoint(freeRects) && PairwiseDisjoint(placed) && AllDisjoint(freeRects, placed) &&
      Covered(freeRects, placed, width, height)
    }

    /** `TextureAtlas::new`: the whole atlas free, no padding. */
    constructor(width: int, height: int)
      ensures freeRects == [Rect(0, 0, width, height)] && padding == 0
      ensures this.width == width && this.height == height && placed == []
      ensures Valid()
    {
      freeRects := [Rect(0, 0, width, height)];
      padding := 0;
      this.width := width;
      this.height := height;
      placed := [];
      LemmaWholeCovered(width, height);
    }

    /** `TextureAtlas::new_padded`: the whole atlas free, with the given padding. */
    constructor Padded(width: int, height: int, padding: int)
      ensures freeRects == [Rect(0, 0, width, height)] && this.padding == padding
      ensures this.width == width && this.height == height && placed == []
      ensures Valid()
    {
      freeRects := [Rect(0, 0, width, height)];
      this.padding := padding;
      this.width := width;
      this.height := height;
      placed := [];
      LemmaWholeCovered(width, height);
    }

    /**
     * The scan of `TextureAtlas::find`: remember a fitting free rectangle when it scores
     * strictly below the one held so far, and stop at a perfect fit.
     */
    method BestFit(w: int, h: int) returns (best: Option<nat>)
      ensures best == BestOf(freeRects, w, h, |freeRects|)
    {
      var held: Option<(int, nat)> := None;
      var idx: nat := 0;
      while idx < |freeRects|
        invariant idx <= |freeRects|
        invariant held.None? <==> BestOf(freeRects, w, h, idx).None?
        invariant held.Some? ==> held.value.1 == BestOf(freeRects, w, h, idx).value &&
                                 held.value.0 == Score(freeRects[held.value.1], w, h)
      {
        var free := freeRects[idx];
        var score := (free.width - w) * (free.height - h);
        if score >= 0 && free.width >= w && free.height >= h && (held.None? || held.value.0 > score) {
          held := Some((score, idx));
          if score == 0 {
            LemmaPerfectFitStays(freeRects, w, h, idx + 1, |freeRects|);
            break;
          }
        }
        idx := idx + 1;
      }
      if held.None? {
        return None;
      }
      return Some(held.value.1);
    }

    /**
     * `TextureAtlas::find`: place a `width` by `height` area with `padding` spare on every
     * side. With no fitting free rectangle nothing changes; otherwise the best fit is
     * removed, its leftover strips are appended, and the area inside the padding is returned
     * (`FindStep` spells these out on the free list).
     */
    method Find(width: int, height: int) returns (res: Option<Rect>)
      modifies this
      ensures var step := FindStep(old(freeRects), width + 2 * padding, height + 2 * padding);
              step.None? ==> res.None? && freeRects == old(freeRects) && placed == old(placed)
      ensures var step := FindStep(old(freeRects), width + 2 * padding, height + 2 * padding);
              step.Some? ==>
                res == Some(Inner(step.value.1, padding)) && freeRects == step.value.0 &&
                placed == old(placed) + [step.value.1]
      ensures old(Valid()) && width + 2 * padding >= 0 && height + 2 * padding >= 0 ==> Valid()
    {
      var w := width + padding * 2;
      var h := height + padding * 2;
      ghost var wasValid := Valid();
      var best := BestFit(w, h);
      if best.None? {
        return None;
      }
      var i := best.value;
      var rect := freeRects[i];
      var rest := freeRects[..i] + freeRects[i + 1..];
      freeRects := rest;
      var ret := Rect(rect.x, rect.y, w, h);
      if rect.width - w > 0 {
        freeRects := freeRects + [Rect(rect.x + w, rect.y, rect.width - w, rect.height)];
        rect := rect.(width := w);
      }
      if rect.height - h > 0 {
        freeRects := freeRects + [Rect(rect.x, rect.y + h, rect.width, rect.height - h)];
      }
      placed := placed + [ret];
      assert freeRects == rest + Split(old(freeRects)[i], w, h);
      if wasValid && w >= 0 && h >= 0 {
        LemmaBestOf(old(freeRects), w, h, |old(freeRects)|);
        LemmaFindKeepsValid(old(freeRects), old(placed), i, w, h, this.width, this.height);
        LemmaFindKeepsCovered(old(freeRects), old(placed), i, w, h, this.width, this.height);
      }
      return Some(Rect(ret.x + padding, ret.y + padding, ret.width - padding * 2, ret.height - padding * 2));
    }
  }

  /**
   * Taking the best fit `i` out of a valid free list and putting its strips back, with the
   * placement recorded, leaves free rectangles and placements inside the atlas and apart.
   */
  lemma LemmaFindKeepsValid(frees: seq<Rect>, placed: seq<Rect>, i: nat, w: int, h: int, width: int, height: int)
    requires i < |frees| && 0 <= w <= frees[i].width && 0 <= h <= frees[i].height
    requires AllInside(frees, width, height) && AllInside(placed, width, height)
    requires PairwiseDisjoint(frees) && PairwiseDisjoint(placed) && AllDisjoint(frees, placed)
    ensures var c := frees[i];
            var frees' := frees[..i] + frees[i + 1..] + Split(c, w, h);
            var placed' := placed + [Placement(c, w, h)];
            AllInside(frees', width, height) && AllInside(placed', width, height) &&
            PairwiseDisjoint(frees') && PairwiseDisjoint(placed') && AllDisjoint(frees', placed')
  {
    var c := frees[i];
    var rest := frees[..i] + frees[i + 1..];
    var pieces := Split(c, w, h);
    var p := Placement(c, w, h);
    var frees' := rest + pieces;
    var placed' := placed + [p];
    var atlas := Rect(0, 0, width, height);
    LemmaSplitPieces(c, w, h);
    assert forall k :: 0 <= k < |rest| ==> rest[k] == frees[if k < i then k else k + 1];
    assert forall k :: 0 <= k < |rest| ==> Disjoint(rest[k], c) && Disjoint(c, rest[k]);
    forall k | 0 <= k < |frees'|
      ensures Within(frees'[k], atlas)
    {
      if k >= |rest| {
        assert frees'[k] in pieces;
      }
    }
    forall k | 0 <= k < |placed'|
      ensures Within(placed'[k], atlas)
    {
    }
    forall a, b | 0 <= a < b < |frees'|
      ensures Disjoint(frees'[a], frees'[b])
    {
      if b >= |rest| {
        assert frees'[b] in pieces;
        if a < |rest| {
          LemmaWithinDisjoint(frees'[b], c, frees'[a]);
        } else {
          assert frees'[a] == pieces[0] && frees'[b] == pieces[1];
        }
      }
    }
    forall a, b | 0 <= a < b < |placed'|
      ensures Disjoint(placed'[a], placed'[b])
    {
      if b == |placed| {
        assert Disjoint(c, placed[a]);
        LemmaWithinDisjoint(p, c, placed[a]);
      }
    }
    forall a, b | 0 <= a < |frees'| && 0 <= b < |placed'|
      ensures Disjoint(frees'[a], placed'[b])
    {
      if a >= |rest| {
        assert frees'[a] in pieces;
        if b < |placed| {
          assert Disjoint(c, placed[b]);
          LemmaWithinDisjoint(frees'[a], c, placed[b]);
        }
      } else if b == |placed| {
        LemmaWithinDisjoint(p, c, frees'[a]);
      }
    }
  }

  /**
   * `find` as request `i` of the run of areas `sizes` that started on the free list `frees`:
   * besides what `find` promises, the atlas afterwards is where that run leaves it, and a
   * failed request means the whole run fails.
   */
  method FindInRun(atlas: TextureAtlas, width: int, height: int,
                   ghost frees: seq<Rect>, ghost sizes: seq<(int, int)>, ghost i: nat)
    returns (res: Option<Rect>)
    requires atlas.Valid() && width + 2 * atlas.padding >= 0 && height + 2 * atlas.padding >= 0
    requires i < |sizes| && sizes[i] == (width, height)
    requires RunReaches(frees, atlas.padding, sizes[..i], atlas.freeRects, atlas.placed)
    modifies atlas
    ensures atlas.Valid()
    ensures var step := FindStep(old(atlas.freeRects), width + 2 * atlas.padding, height + 2 * atlas.padding);
            step.None? ==> res.None? && atlas.freeRects == old(atlas.freeRects) && atlas.placed == old(atlas.placed)
    ensures var step := FindStep(old(atlas.freeRects), width + 2 * atlas.padding, height + 2 * atlas.padding);
            step.Some? ==>
              res == Some(Inner(step.value.1, atlas.padding)) && atlas.freeRects == step.value.0 &&
              atlas.placed == old(atlas.placed) + [step.value.1]
    ensures res.None? ==> PackRun(frees, atlas.padding, sizes).None?
    ensures res.Some? ==> RunReaches(frees, atlas.padding, sizes[..i + 1], atlas.freeRects, atlas.placed)
  {
    LemmaPackRunStep(frees, atlas.padding, sizes, i, width, height);
    res := atlas.Find(width, height);
  }

  /**
   * On an unpadded 16 by 16 atlas a 4 by 4 request lands at the origin, leaving a strip to
   * its right and one below it.
   */
  lemma ScenarioSixteen()
    ensures FindStep([Rect(0, 0, 16, 16)], 4, 4).Some?
    ensures FindStep([Rect(0, 0, 16, 16)], 4, 4).value.1 == Rect(0, 0, 4, 4) == Inner(Rect(0, 0, 4, 4), 0)
    ensures FindStep([Rect(0, 0, 16, 16)], 4, 4).value.0 == [Rect(4, 0, 12, 16), Rect(0, 4, 4, 12)]
  {
    assert BestOf([Rect(0, 0, 16, 16)], 4, 4, 1) == Some(0);
    assert Split(Rect(0, 0, 16, 16), 4, 4) == [Rect(4, 0, 12, 16), Rect(0, 4, 4, 12)];
    assert [Rect(0, 0, 16, 16)][..0] + [Rect(0, 0, 16, 16)][1..] == [];
    var st := FindStep([Rect(0, 0, 16, 16)], 4, 4);
    assert st.Some? && st.value.1 == Rect(0, 0, 4, 4);
    assert st.value.0 == [Rect(4, 0, 12, 16), Rect(0, 4, 4, 12)];
  }

  /** After that, a 16 by 16 request no longer fits anywhere. */
  lemma ScenarioSixteenFull()
    ensures FindStep([Rect(4, 0, 12, 16), Rect(0, 4, 4, 12)], 16, 16).None?
  {
    assert BestOf([Rect(4, 0, 12, 16), Rect(0, 4, 4, 12)], 16, 16, 2) == None;
  }
}
