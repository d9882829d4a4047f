/**
 * The level baker of `QMap::new` (src/render/qmap.rs): it packs every texture of a BSP
 * file into a 1024 by 1024 atlas with two smaller mip levels, packs every face's light
 * map into a second, padded atlas, and turns every face into triangles whose vertices
 * carry atlas offsets and lighting flags. Floating-point quantities (positions, texture
 * projections, light-map sizes) are kept symbolic: a vertex records which point and which
 * projection it was computed from, and light-map sizes are an input function.
 */
module QMap {
  import opened Common
  import opened Parse
  import opened Bsp
  import opened Atlas

  /** `ATLAS_SIZE`: the side of both atlases, in texels. */
  const ATLAS_SIZE: nat := 1024

  // ---------------------------------------------------------------------------------------
  // Packing order

  /** `TSortable`: an entry to pack — a texture id or a light-map offset and its size. */
  datatype Sortable = Sortable(idx: i32, width: u32, height: u32)

  /** The sort key of `TSortable::cmp`: `width * height` as a `u32` product. */
  function Area(s: Sortable): u32
  {
    MulU32(s.width, s.height)
  }

  datatype Ordering = Less | Equal | Greater

  /** `TSortable::cmp`: entries compare by area alone. */
  function Cmp(a: Sortable, b: Sortable): (o: Ordering)
  {
    if Area(a) < Area(b) then Less else if Area(a) == Area(b) then Equal else Greater
  }

  /** `cmp` is a total order on areas, as `Ord` demands: antisymmetric, reflexive, transitive. */
  lemma LemmaCmpTotalOrder(a: Sortable, b: Sortable, c: Sortable)
    ensures Cmp(a, b) == Less <==> Cmp(b, a) == Greater
    ensures Cmp(a, b) == Equal <==> Cmp(b, a) == Equal
    ensures Cmp(a, a) == Equal
    ensures Cmp(a, b) != Greater && Cmp(b, c) != Greater ==> Cmp(a, c) != Greater
    ensures Cmp(a, b) == Equal <==> Area(a) == Area(b)
  {
  }

  /** Ascending by area. */
  predicate SortedByArea(s: seq<Sortable>)
  {
    forall i, j :: 0 <= i < j < |s| ==> Area(s[i]) <= Area(s[j])
  }

  /** The entries of `s` whose area is `k`, in their order in `s`. */
  function WithArea(s: seq<Sortable>, k: u32): (r: seq<Sortable>)
    ensures |r| <= |s|
  {
    if |s| == 0 then [] else WithArea(s[..|s| - 1], k) + (if Area(s[|s| - 1]) == k then [s[|s| - 1]] else [])
  }

  /** Put `x` behind every entry of the sorted `t` that is not larger than it. */
  function Insert(t: seq<Sortable>, x: Sortable): (r: seq<Sortable>)
    ensures |r| == |t| + 1
  {
    if |t| == 0 || Area(t[|t| - 1]) <= Area(x) then t + [x] else Insert(t[..|t| - 1], x) + [t[|t| - 1]]
  }

  /** `slice::sort` under `TSortable::cmp`, a stable sort, written as an insertion sort. */
  function SortByArea(s: seq<Sortable>): (r: seq<Sortable>)
    ensures |r| == |s|
  {
    if |s| == 0 then [] else Insert(SortByArea(s[..|s| - 1]), s[|s| - 1])
  }

  lemma {:induction false} LemmaWithAreaAppend(a: seq<Sortable>, b: seq<Sortable>, k: u32)
    ensures WithArea(a + b, k) == WithArea(a, k) + WithArea(b, k)
    decreases |b|
  {
    if |b| == 0 {
      assert a + b == a;
    } else {
      assert (a + b)[..|a + b| - 1] == a + b[..|b| - 1];
      LemmaWithAreaAppend(a, b[..|b| - 1], k);
    }
  }

  /** Inserting adds exactly `x`. */
  lemma {:induction false} LemmaInsertPermutes(t: seq<Sortable>, x: Sortable)
    ensures multiset(Insert(t, x)) == multiset(t) + multiset{x}
    decreases |t|
  {
    if |t| > 0 && Area(t[|t| - 1]) > Area(x) {
      assert t == t[..|t| - 1] + [t[|t| - 1]];
      LemmaInsertPermutes(t[..|t| - 1], x);
    }
  }

  /** Inserting an entry no larger than `bound` into entries no larger than `bound` gives such entries. */
  lemma LemmaInsertBounded(t: seq<Sortable>, x: Sortable, bound: int)
    requires Area(x) <= bound && forall i :: 0 <= i < |t| ==> Area(t[i]) <= bound
    ensures forall i :: 0 <= i < |Insert(t, x)| ==> Area(Insert(t, x)[i]) <= bound
  {
    var r := Insert(t, x);
    LemmaInsertPermutes(t, x);
    forall i | 0 <= i < |r|
      ensures Area(r[i]) <= bound
    {
      assert r[i] in multiset(r);
      if r[i] != x {
        assert r[i] in multiset(t);
      }
    }
  }

  /** Inserting into a sorted list keeps it sorted. */
  lemma {:induction false} LemmaInsertSorted(t: seq<Sortable>, x: Sortable)
    requires SortedByArea(t)
    ensures SortedByArea(Insert(t, x))
    decreases |t|
  {
    if |t| > 0 && Area(t[|t| - 1]) > Area(x) {
      var init, last := t[..|t| - 1], t[|t| - 1];
      LemmaInsertSorted(init, x);
      LemmaInsertBounded(init, x, Area(last));
      var r := Insert(init, x);
      var res := Insert(t, x);
      assert res == r + [last];
      forall i, j | 0 <= i < j < |res|
        ensures Area(res[i]) <= Area(res[j])
      {
        assert res[i] == r[i];
        if j < |r| {
          assert res[j] == r[j];
        }
      }
    }
  }

  /** `x` goes behind every entry of its own area: the sort is stable. */
  lemma {:induction false} LemmaInsertStable(t: seq<Sortable>, x: Sortable, k: u32)
    ensures WithArea(Insert(t, x), k) == WithArea(t, k) + (if Area(x) == k then [x] else [])
    decreases |t|
  {
    if |t| == 0 || Area(t[|t| - 1]) <= Area(x) {
      assert (t + [x])[..|t + [x]| - 1] == t;
    } else {
      var init, last := t[..|t| - 1], t[|t| - 1];
      LemmaInsertStable(init, x, k);
      var r := Insert(init, x);
      assert (r + [last])[..|r + [last]| - 1] == r;
    }
  }

  /**
   * The packing order: ascending by area, a permutation of the input, and stable — the
   * entries of any one area keep their input order.
   */
  lemma {:induction false} LemmaSortByArea(s: seq<Sortable>)
    ensures SortedByArea(SortByArea(s))
    ensures multiset(SortByArea(s)) == multiset(s)
    ensures forall k :: WithArea(SortByArea(s), k) == WithArea(s, k)
  {
    if |s| > 0 {
      var init, last := s[..|s| - 1], s[|s| - 1];
      assert s == init + [last];
      LemmaSortByArea(init);
      LemmaInsertSorted(SortByArea(init), last);
      LemmaInsertPermutes(SortByArea(init), last);
      forall k
        ensures WithArea(SortByArea(s), k) == WithArea(s, k)
      {
        LemmaInsertStable(SortByArea(init), last, k);
      }
    }
  }

  // ---------------------------------------------------------------------------------------
  // Texture list

  /** Each directory slot holds the texture of its own index, or the `-1` placeholder. */
  predicate Indexed(ts: seq<Texture>)
  {
    forall k :: 0 <= k < |ts| ==> ts[k].id == -1 || ts[k].id == k
  }

  /** `t_list` before sorting: one entry per texture present, in directory order. */
  function Selected(ts: seq<Texture>): (r: seq<Sortable>)
    ensures |r| <= |ts|
  {
    if |ts| == 0 then []
    else
      var t := ts[|ts| - 1];
      Selected(ts[..|ts| - 1]) + (if t.id != -1 then [Sortable(t.id, t.width, t.height)] else [])
  }

  /** `e` is the entry of a texture present in `ts`, with that texture's size. */
  predicate EntryOf(ts: seq<Texture>, e: Sortable)
  {
    0 <= e.idx < |ts| && ts[e.idx].id == e.idx && e.width == ts[e.idx].width && e.height == ts[e.idx].height
  }

  /** Every entry of the list is a present texture, and ids strictly ascend, so none repeats. */
  lemma {:induction false} LemmaSelectedSound(ts: seq<Texture>)
    requires Indexed(ts)
    ensures forall i :: 0 <= i < |Selected(ts)| ==> EntryOf(ts, Selected(ts)[i])
    ensures forall i, j :: 0 <= i < j < |Selected(ts)| ==> Selected(ts)[i].idx < Selected(ts)[j].idx
  {
    if |ts| > 0 {
      var init := ts[..|ts| - 1];
      assert Indexed(init);
      LemmaSelectedSound(init);
      var r, ri := Selected(ts), Selected(init);
      var t := ts[|ts| - 1];
      assert r == ri + (if t.id != -1 then [Sortable(t.id, t.width, t.height)] else []);
      forall i | 0 <= i < |ri|
        ensures EntryOf(ts, r[i]) && r[i].idx < |init|
      {
        assert r[i] == ri[i];
        assert EntryOf(init, ri[i]);
        assert init[ri[i].idx] == ts[ri[i].idx];
      }
      if t.id != -1 {
        assert t.id == |ts| - 1;
        assert EntryOf(ts, r[|ri|]);
      }
    }
  }

  /** Every texture present (`id != -1`) has its entry in the list; placeholders have none. */
  lemma {:induction false} LemmaSelectedComplete(ts: seq<Texture>)
    requires Indexed(ts)
    ensures forall k :: 0 <= k < |ts| && ts[k].id != -1 ==>
              Sortable(ts[k].id, ts[k].width, ts[k].height) in Selected(ts)
  {
    if |ts| > 0 {
      var init := ts[..|ts| - 1];
      assert Indexed(init);
      LemmaSelectedComplete(init);
      var r, ri := Selected(ts), Selected(init);
      assert r[..|ri|] == ri;
      forall k | 0 <= k < |ts| && ts[k].id != -1
        ensures Sortable(ts[k].id, ts[k].width, ts[k].height) in r
      {
        if k < |init| {
          assert init[k] == ts[k];
          var e := Sortable(ts[k].id, ts[k].width, ts[k].height);
          var i :| 0 <= i < |ri| && ri[i] == e;
          assert r[i] == e;
        }
      }
    }
  }

  /** Distinct entries name distinct ids (or light-map offsets). */
  predicate DistinctIdx(s: seq<Sortable>)
  {
    forall i, j :: 0 <= i < j < |s| ==> s[i].idx != s[j].idx
  }

  lemma {:induction false} LemmaInsertDistinct(t: seq<Sortable>, x: Sortable)
    requires DistinctIdx(t) && forall e :: e in t ==> e.idx != x.idx
    ensures DistinctIdx(Insert(t, x))
    decreases |t|
  {
    if |t| > 0 && Area(t[|t| - 1]) > Area(x) {
      var init, last := t[..|t| - 1], t[|t| - 1];
      forall e | e in init
        ensures e.idx != x.idx
      {
        assert e in t;
      }
      LemmaInsertDistinct(init, x);
      LemmaInsertPermutes(init, x);
      var r := Insert(init, x);
      forall i | 0 <= i < |r|
        ensures r[i].idx != last.idx
      {
        assert r[i] in multiset(r);
        if r[i] != x {
          var k :| 0 <= k < |init| && init[k] == r[i];
          assert t[k] == r[i];
        }
      }
      assert Insert(t, x) == r + [last];
    }
  }

  /** Sorting keeps ids distinct. */
  lemma {:induction false} LemmaSortDistinct(s: seq<Sortable>)
    requires DistinctIdx(s)
    ensures DistinctIdx(SortByArea(s))
  {
    if |s| > 0 {
      var init, last := s[..|s| - 1], s[|s| - 1];
      assert DistinctIdx(init);
      LemmaSortDistinct(init);
      LemmaSortByArea(init);
      forall e | e in SortByArea(init)
        ensures e.idx != last.idx
      {
        assert e in multiset(SortByArea(init));
        var k :| 0 <= k < |init| && init[k] == e;
        assert s[k] == e;
      }
      LemmaInsertDistinct(SortByArea(init), last);
    }
  }

  // ---------------------------------------------------------------------------------------
  // Texture atlas and its mip levels

  /** `1 << mip`, the divisor that `>> mip` stands for. */
  function Scale(mip: nat): (d: nat)
    requires mip < 3
    ensures d > 0
  {
    [1, 2, 4][mip]
  }

  /** `ATLAS_SIZE >> mip`: the side of mip level `mip`. */
  function MipSide(mip: nat): (n: nat)
    requires mip < 3
    ensures n * Scale(mip) == ATLAS_SIZE
  {
    [1024, 512, 256][mip]
  }

  lemma LemmaMulAtLeast(k: int, s: int)
    requires k >= 1 && s >= 0
    ensures k * s >= s
  {
    assert k * s == s + (k - 1) * s;
  }

  lemma LemmaRowFits(row: int, stride: int, rows: int)
    requires 0 <= row < rows && stride > 0
    ensures row * stride + stride <= stride * rows
  {
    LemmaMulAtLeast(rows - row, stride);
    assert stride * rows == row * stride + (rows - row) * stride;
  }

  /** Position of column `col`, row `row` in a row-major buffer `stride` wide and `rows` tall. */
  function Cell(col: int, row: int, stride: int, rows: int): (i: int)
    requires 0 <= col < stride && 0 <= row < rows
    ensures 0 <= i < stride * rows
  {
    LemmaRowFits(row, stride, rows);
    col + row * stride
  }

  /** Distinct cells have distinct positions. */
  lemma LemmaCellInjective(c1: int, r1: int, c2: int, r2: int, stride: int, rows: int)
    requires 0 <= c1 < stride && 0 <= r1 < rows && 0 <= c2 < stride && 0 <= r2 < rows
    ensures Cell(c1, r1, stride, rows) == Cell(c2, r2, stride, rows) ==> c1 == c2 && r1 == r2
  {
    if r1 < r2 {
      LemmaMulAtLeast(r2 - r1, stride);
      assert r2 * stride - r1 * stride == (r2 - r1) * stride;
    } else if r2 < r1 {
      LemmaMulAtLeast(r1 - r2, stride);
      assert r1 * stride - r2 * stride == (r1 - r2) * stride;
    }
  }

  /** `level`, a square `stride` texels wide, shows `pic` with its first texel at column `ox`, row `oy`. */
  predicate Shows(level: seq<byte>, stride: int, ox: int, oy: int, pic: Picture)
  {
    |level| == stride * stride && |pic.data| == pic.width * pic.height &&
    (pic.width > 0 && pic.height > 0 ==> 0 <= ox && ox + pic.width <= stride && 0 <= oy && oy + pic.height <= stride) &&
    forall x, y :: 0 <= x < pic.width && 0 <= y < pic.height && 0 <= ox && ox + pic.width <= stride &&
                   0 <= oy && oy + pic.height <= stride ==>
      level[Cell(ox + x, oy + y, stride, stride)] == pic.data[Cell(x, y, pic.width, pic.height)]
  }

  /** `after` differs from `before` only in cells that `area` covers. */
  predicate SameOutside(before: seq<byte>, after: seq<byte>, stride: int, area: Rect)
  {
    |before| == |after| == stride * stride &&
    forall c, r :: 0 <= c < stride && 0 <= r < stride && !Covers(area, c, r) ==>
      after[Cell(c, r, stride, stride)] == before[Cell(c, r, stride, stride)]
  }

  /**
   * The pixel loops of one mip level: texel (x, y) of the picture is written at position
   * `(ox + x) + (oy + y) * stride` of the level, and nothing outside that area changes.
   */
  method CopyPicture(target: array<byte>, stride: int, ox: int, oy: int, pic: Picture)
    requires target.Length == stride * stride && |pic.data| == pic.width * pic.height
    requires pic.width > 0 && pic.height > 0 ==> 0 <= ox && ox + pic.width <= stride && 0 <= oy && oy + pic.height <= stride
    modifies target
    ensures Shows(target[..], stride, ox, oy, pic)
    ensures SameOutside(old(target[..]), target[..], stride, Rect(ox, oy, pic.width, pic.height))
  {
    var area := Rect(ox, oy, pic.width, pic.height);
    var y := 0;
    while y < pic.height
      invariant 0 <= y <= pic.height
      invariant forall x', y' :: 0 <= x' < pic.width && 0 <= y' < y ==>
                  target[Cell(ox + x', oy + y', stride, stride)] == pic.data[Cell(x', y', pic.width, pic.height)]
      invariant forall c, r :: 0 <= c < stride && 0 <= r < stride && !(Covers(area, c, r) && r < oy + y) ==>
                  target[Cell(c, r, stride, stride)] == old(target[Cell(c, r, stride, stride)])
    {
      CopyPictureRow(target, stride, ox, oy, pic, y);
      y := y + 1;
    }
  }

  /** Row `y` of the pixel loops: the picture's row `y` goes to row `oy + y` from column `ox` on. */
  method CopyPictureRow(target: array<byte>, stride: int, ox: int, oy: int, pic: Picture, y: int)
    requires target.Length == stride * stride && |pic.data| == pic.width * pic.height && 0 <= y < pic.height
    requires pic.width > 0 ==> 0 <= ox && ox + pic.width <= stride && 0 <= oy && oy + pic.height <= stride
    modifies target
    ensures forall x' :: 0 <= x' < pic.width ==>
              target[Cell(ox + x', oy + y, stride, stride)] == pic.data[Cell(x', y, pic.width, pic.height)]
    ensures forall c, r :: 0 <= c < stride && 0 <= r < stride && !(r == oy + y && ox <= c < ox + pic.width) ==>
              target[Cell(c, r, stride, stride)] == old(target[Cell(c, r, stride, stride)])
  {
    var x := 0;
    while x < pic.width
      invariant 0 <= x <= pic.width
      invariant forall x' :: 0 <= x' < x ==>
                  target[Cell(ox + x', oy + y, stride, stride)] == pic.data[Cell(x', y, pic.width, pic.height)]
      invariant forall c, r :: 0 <= c < stride && 0 <= r < stride && !(r == oy + y && ox <= c < ox + x) ==>
                  target[Cell(c, r, stride, stride)] == old(target[Cell(c, r, stride, stride)])
    {
      var idx := Cell(ox + x, oy + y, stride, stride);
      forall c, r | 0 <= c < stride && 0 <= r < stride
        ensures Cell(c, r, stride, stride) == idx ==> c == ox + x && r == oy + y
      {
        LemmaCellInjective(c, r, ox + x, oy + y, stride, stride);
      }
      target[idx] := pic.data[Cell(x, y, pic.width, pic.height)];
      x := x + 1;
    }
  }

  /** Where `r` lands in mip level `mip`: every coordinate shifted right by `mip`. */
  function Scaled(r: Rect, mip: nat): Rect
    requires mip < 3
  {
    Rect(r.x / Scale(mip), r.y / Scale(mip), r.width / Scale(mip), r.height / Scale(mip))
  }

  lemma LemmaFloorAdd(a: int, b: int, mip: nat)
    requires mip < 3
    ensures a / Scale(mip) + b / Scale(mip) <= (a + b) / Scale(mip)
  {
    if mip == 1 {
      assert a / 2 + b / 2 <= (a + b) / 2;
    } else if mip == 2 {
      assert a / 4 + b / 4 <= (a + b) / 4;
    }
  }

  lemma LemmaFloorMonotone(a: int, b: int, mip: nat)
    requires mip < 3 && a <= b
    ensures a / Scale(mip) <= b / Scale(mip)
  {
    if mip == 1 {
      assert a / 2 <= b / 2;
    } else if mip == 2 {
      assert a / 4 <= b / 4;
    }
  }

  /** Areas that share no cell in the atlas share none in any mip level. */
  lemma LemmaScaledDisjoint(a: Rect, b: Rect, mip: nat)
    requires mip < 3 && Disjoint(a, b)
    ensures Disjoint(Scaled(a, mip), Scaled(b, mip))
  {
    var d := Scale(mip);
    if Empty(a) {
      LemmaFloorMonotone(if a.width <= 0 then a.width else a.height, 0, mip);
    } else if Empty(b) {
      LemmaFloorMonotone(if b.width <= 0 then b.width else b.height, 0, mip);
    } else if a.x + a.width <= b.x {
      LemmaFloorAdd(a.x, a.width, mip);
      LemmaFloorMonotone(a.x + a.width, b.x, mip);
    } else if b.x + b.width <= a.x {
      LemmaFloorAdd(b.x, b.width, mip);
      LemmaFloorMonotone(b.x + b.width, a.x, mip);
    } else if a.y + a.height <= b.y {
      LemmaFloorAdd(a.y, a.height, mip);
      LemmaFloorMonotone(a.y + a.height, b.y, mip);
    } else {
      LemmaFloorAdd(b.y, b.height, mip);
      LemmaFloorMonotone(b.y + b.height, a.y, mip);
    }
  }

  /** An area inside the atlas lands inside every mip level. */
  lemma LemmaScaledWithin(a: Rect, mip: nat)
    requires mip < 3 && Within(a, Rect(0, 0, ATLAS_SIZE, ATLAS_SIZE))
    ensures Within(Scaled(a, mip), Rect(0, 0, MipSide(mip), MipSide(mip)))
  {
    if !Empty(a) {
      LemmaFloorAdd(a.x, a.width, mip);
      LemmaFloorMonotone(a.x + a.width, ATLAS_SIZE, mip);
      LemmaFloorAdd(a.y, a.height, mip);
      LemmaFloorMonotone(a.y + a.height, ATLAS_SIZE, mip);
      LemmaFloorMonotone(0, a.x, mip);
      LemmaFloorMonotone(0, a.y, mip);
    }
  }

  /** A picture a copy does not touch stays shown. */
  lemma LemmaShowsKept(before: seq<byte>, after: seq<byte>, stride: int, ox: int, oy: int, pic: Picture, area: Rect)
    requires Shows(before, stride, ox, oy, pic) && SameOutside(before, after, stride, area)
    requires Disjoint(Rect(ox, oy, pic.width, pic.height), area)
    ensures Shows(after, stride, ox, oy, pic)
  {
    LemmaDisjointMeansNoCommonCell(Rect(ox, oy, pic.width, pic.height), area);
    forall x, y | 0 <= x < pic.width && 0 <= y < pic.height && 0 <= ox && ox + pic.width <= stride &&
                  0 <= oy && oy + pic.height <= stride
      ensures after[Cell(ox + x, oy + y, stride, stride)] == pic.data[Cell(x, y, pic.width, pic.height)]
    {
      assert Covers(Rect(ox, oy, pic.width, pic.height), ox + x, oy + y);
    }
  }

  /**
   * What packing relies on for a present texture: its size fits an `i32`, and picture `m`
   * is the texture's size shifted right by `m`, one byte per texel.
   */
  predicate MipsFit(t: Texture)
  {
    t.width < 0x8000_0000 && t.height < 0x8000_0000 &&
    forall m :: 0 <= m < 3 && m < |t.pictures| ==>
      t.pictures[m].width == t.width / Scale(m) && t.pictures[m].height == t.height / Scale(m) &&
      |t.pictures[m].data| == t.pictures[m].width * t.pictures[m].height
  }

  /** The texture directory as a parsed level delivers it. */
  predicate TexturesFit(ts: seq<Texture>)
  {
    Indexed(ts) && forall k :: 0 <= k < |ts| && ts[k].id != -1 ==> MipsFit(ts[k])
  }

  /** `texture_data`: three distinct buffers, level `m` holding `(ATLAS_SIZE >> m)^2` texels. */
  predicate LevelsShape(levels: seq<array<byte>>)
  {
    |levels| == 3 && levels[0] != levels[1] && levels[0] != levels[2] && levels[1] != levels[2] &&
    forall m :: 0 <= m < 3 ==> levels[m].Length == MipSide(m) * MipSide(m)
  }

  /** The contents of the mip levels. */
  function Contents(levels: seq<array<byte>>): (r: seq<seq<byte>>)
    reads levels
    ensures |r| == |levels| && forall m :: 0 <= m < |levels| ==> r[m] == levels[m][..]
  {
    seq(|levels|, m requires 0 <= m < |levels| reads levels => levels[m][..])
  }

  /** Texture `t`, placed at `rect`, shows in each of its first three mip levels. */
  predicate ShownAt(levels: seq<seq<byte>>, rect: Rect, t: Texture)
    requires |levels| == 3
  {
    forall m :: 0 <= m < 3 && m < |t.pictures| ==>
      Shows(levels[m], MipSide(m), rect.x / Scale(m), rect.y / Scale(m), t.pictures[m])
  }

  /** The atlas that `QMap::new` packs textures into: unpadded, `ATLAS_SIZE` square. */
  ghost predicate TextureAtlasReady(atlas: TextureAtlas)
    reads atlas
  {
    atlas.Valid() && atlas.padding == 0 && atlas.width == ATLAS_SIZE && atlas.height == ATLAS_SIZE
  }

  /** A copy into other areas leaves a shown texture shown. */
  lemma LemmaShownAtKept(before: seq<seq<byte>>, after: seq<seq<byte>>, area: Rect, t: Texture, other: Rect)
    requires |before| == 3 && |after| == 3 && MipsFit(t) && area.width == t.width && area.height == t.height
    requires ShownAt(before, area, t) && Disjoint(area, other)
    requires forall m :: 0 <= m < 3 ==> SameOutside(before[m], after[m], MipSide(m), Scaled(other, m))
    ensures ShownAt(after, area, t)
  {
    forall m | 0 <= m < 3 && m < |t.pictures|
      ensures Shows(after[m], MipSide(m), area.x / Scale(m), area.y / Scale(m), t.pictures[m])
    {
      LemmaScaledDisjoint(area, other, m);
      LemmaShowsKept(before[m], after[m], MipSide(m), area.x / Scale(m), area.y / Scale(m), t.pictures[m], Scaled(other, m));
    }
  }

  /**
   * The mip loop of one texture: picture `m` (for `m` below 3) goes into level `m` at the
   * texture's area shifted right by `m`; nothing outside that area changes in any level.
   */
  method CopyMips(levels: seq<array<byte>>, area: Rect, t: Texture)
    requires LevelsShape(levels) && MipsFit(t) && area.width == t.width && area.height == t.height
    requires Within(area, Rect(0, 0, ATLAS_SIZE, ATLAS_SIZE))
    modifies levels
    ensures ShownAt(Contents(levels), area, t)
    ensures forall m :: 0 <= m < 3 ==> SameOutside(old(levels[m][..]), levels[m][..], MipSide(m), Scaled(area, m))
  {
    var mip := 0;
    while mip < 3 && mip < |t.pictures|
      invariant 0 <= mip <= 3
      invariant forall m :: 0 <= m < mip && m < |t.pictures| ==>
                  Shows(levels[m][..], MipSide(m), area.x / Scale(m), area.y / Scale(m), t.pictures[m])
      invariant forall m :: 0 <= m < 3 ==> SameOutside(old(levels[m][..]), levels[m][..], MipSide(m), Scaled(area, m))
      invariant forall m :: mip <= m < 3 ==> levels[m][..] == old(levels[m][..])
    {
      var pic := t.pictures[mip];
      LemmaScaledWithin(area, mip);
      assert forall m :: 0 <= m < 3 && m != mip ==> levels[m] != levels[mip];
      CopyPicture(levels[mip], MipSide(mip), area.x / Scale(mip), area.y / Scale(mip), pic);
      mip := mip + 1;
    }
  }

  /** The areas the packing loops ask the atlas for, entry by entry. */
  function SizesOf(es: seq<Sortable>): seq<(int, int)>
  {
    seq(|es|, j requires 0 <= j < |es| => (es[j].width as int, es[j].height as int))
  }

  /**
   * One round of the texture loop: find room for the texture (`unwrap`: a full atlas
   * panics, reported as `false`), record the area in `textures[id]`, and copy the mips.
   */
  method PackTexture(atlas: TextureAtlas, ts: seq<Texture>, e: Sortable, rects: array<Rect>, levels: seq<array<byte>>,
                     ghost frees: seq<Rect>, ghost sizes: seq<(int, int)>, ghost i: nat)
    returns (ok: bool)
    requires TexturesFit(ts) && EntryOf(ts, e) && rects.Length == |ts| && LevelsShape(levels)
    requires TextureAtlasReady(atlas)
    requires i < |sizes| && sizes[i] == (e.width as int, e.height as int)
    requires RunReaches(frees, 0, sizes[..i], atlas.freeRects, atlas.placed)
    modifies atlas, rects, levels
    ensures TextureAtlasReady(atlas)
    ensures !ok ==> PackRun(frees, 0, sizes).None?
    ensures ok ==> RunReaches(frees, 0, sizes[..i + 1], atlas.freeRects, atlas.placed)
    ensures var step := FindStep(old(atlas.freeRects), e.width as int + 2 * atlas.padding, e.height as int + 2 * atlas.padding);
            (ok <==> step.Some?) &&
            (ok ==> atlas.freeRects == step.value.0 && atlas.placed == old(atlas.placed) + [step.value.1])
    ensures ok ==> |atlas.placed| == |old(atlas.placed)| + 1 && atlas.placed[..|old(atlas.placed)|] == old(atlas.placed)
    ensures ok ==>
              var area := atlas.placed[|old(atlas.placed)|];
              area.width == ts[e.idx].width && area.height == ts[e.idx].height &&
              rects[..] == old(rects[..])[e.idx := area] && ShownAt(Contents(levels), area, ts[e.idx]) &&
              forall m :: 0 <= m < 3 ==> SameOutside(old(levels[m][..]), levels[m][..], MipSide(m), Scaled(area, m))
  {
    var tex := ts[e.idx];
    var found := FindInRun(atlas, tex.width as int, tex.height as int, frees, sizes, i);
    if found.None? {
      return false;
    }
    var area := found.value;
    assert area == atlas.placed[|atlas.placed| - 1];
    assert Within(area, Rect(0, 0, ATLAS_SIZE, ATLAS_SIZE));
    rects[tex.id] := area;
    CopyMips(levels, area, tex);
    return true;
  }

  /** `area` is where entry `e`'s texture went: recorded in `rects` and shown in every level. */
  predicate Packed(levels: seq<seq<byte>>, rects: seq<Rect>, area: Rect, ts: seq<Texture>, e: Sortable)
    requires |levels| == 3 && EntryOf(ts, e) && |rects| == |ts|
  {
    rects[e.idx] == area && area.width == ts[e.idx].width && area.height == ts[e.idx].height &&
    ShownAt(levels, area, ts[e.idx])
  }

  /** Placing entry `i` in an area apart from the earlier ones keeps the earlier entries packed. */
  lemma LemmaPackedKept(before: seq<seq<byte>>, after: seq<seq<byte>>, rectsBefore: seq<Rect>, rects: seq<Rect>,
                        placed: seq<Rect>, ts: seq<Texture>, order: seq<Sortable>, i: nat)
    requires TexturesFit(ts) && DistinctIdx(order) && forall j :: 0 <= j < |order| ==> EntryOf(ts, order[j])
    requires i < |order| && i < |placed| && |before| == 3 && |after| == 3 && |rectsBefore| == |ts|
    requires forall j :: 0 <= j < i ==> Disjoint(placed[j], placed[i])
    requires forall j :: 0 <= j < i ==> Packed(before, rectsBefore, placed[j], ts, order[j])
    requires 0 <= order[i].idx < |rectsBefore| && rects == rectsBefore[order[i].idx := placed[i]]
    requires forall m :: 0 <= m < 3 ==> SameOutside(before[m], after[m], MipSide(m), Scaled(placed[i], m))
    ensures forall j :: 0 <= j < i ==> Packed(after, rects, placed[j], ts, order[j])
  {
    forall j | 0 <= j < i
      ensures Packed(after, rects, placed[j], ts, order[j])
    {
      LemmaShownAtKept(before, after, placed[j], ts[order[j].idx], placed[i]);
    }
  }

  /**
   * The texture loop of `QMap::new`: every listed texture gets its own area of the atlas,
   * recorded at its id, and shows there in all three mip levels — a later texture never
   * overwrites an earlier one. Slots of textures not listed keep their default.
   */
  method PackTextures(atlas: TextureAtlas, ts: seq<Texture>, order: seq<Sortable>, rects: array<Rect>, levels: seq<array<byte>>)
    returns (ok: bool)
    requires TexturesFit(ts) && DistinctIdx(order) && forall j :: 0 <= j < |order| ==> EntryOf(ts, order[j])
    requires rects.Length == |ts| && LevelsShape(levels)
    requires TextureAtlasReady(atlas) && atlas.placed == []
    modifies atlas, rects, levels
    ensures TextureAtlasReady(atlas)
    ensures var run := PackRun(old(atlas.freeRects), 0, SizesOf(order));
            (ok <==> run.Some?) && (ok ==> atlas.placed == run.value.1)
    ensures ok ==> |atlas.placed| == |order|
    ensures ok ==> forall j :: 0 <= j < |order| ==> Packed(Contents(levels), rects[..], atlas.placed[j], ts, order[j])
    ensures ok ==> forall k :: 0 <= k < |ts| && (forall j :: 0 <= j < |order| ==> order[j].idx != k) ==> rects[k] == old(rects[k])
  {
    ghost var frees := atlas.freeRects;
    var i := 0;
    while i < |order|
      invariant 0 <= i <= |order|
      invariant TextureAtlasReady(atlas) && |atlas.placed| == i
      invariant RunReaches(frees, 0, SizesOf(order)[..i], atlas.freeRects, atlas.placed)
      invariant forall j :: 0 <= j < i ==> Packed(Contents(levels), rects[..], atlas.placed[j], ts, order[j])
      invariant forall k :: 0 <= k < |ts| && (forall j :: 0 <= j < i ==> order[j].idx != k) ==> rects[k] == old(rects[k])
    {
      ghost var before, rectsBefore, placedBefore := Contents(levels), rects[..], atlas.placed;
      ok := PackTexture(atlas, ts, order[i], rects, levels, frees, SizesOf(order), i);
      if !ok {
        return;
      }
      LemmaPackedKept(before, Contents(levels), rectsBefore, rects[..], atlas.placed, ts, order, i);
      i := i + 1;
    }
    assert SizesOf(order)[..i] == SizesOf(order);
    ok := true;
  }

  // ---------------------------------------------------------------------------------------
  // Level shape

  /** `"trigger"` as bytes. */
  const TRIGGER: seq<byte> := [0x74, 0x72, 0x69, 0x67, 0x67, 0x65, 0x72]

  /** Faces with a missing texture (`id == -1`) or one named `trigger` are not drawn. */
  predicate Excluded(t: Texture)
  {
    t.id == -1 || t.name == TRIGGER
  }

  /**
   * Every index `QMap::new` follows from face `f` lands in range: its texture info, that
   * info's texture, its run of edge references, and each referenced edge (`abs` of the
   * reference, which must not be `i32::MIN`); a light-map offset is `-1` or a position.
   */
  predicate FaceFits(b: BspFile, f: Face)
  {
    f.textureInfo < |b.textureInfo| && b.textureInfo[f.textureInfo].texture < |b.textures| &&
    f.ledges.start <= f.ledges.end <= |b.ledges| && f.lightMap >= -1 &&
    forall k :: f.ledges.start <= k < f.ledges.end ==> -|b.edges| < b.ledges[k] < |b.edges| && b.ledges[k] != -0x8000_0000
  }

  /** The model's run of faces lies in the face list and each of its faces fits. */
  predicate ModelFits(b: BspFile, m: Model)
  {
    m.faces.start <= m.faces.end <= |b.faces| &&
    forall k :: m.faces.start <= k < m.faces.end ==> FaceFits(b, b.faces[k])
  }

  /** What `QMap::new` relies on in a level: the texture directory as parsed, and every model fits. */
  predicate LevelFits(b: BspFile)
  {
    TexturesFit(b.textures) && forall i :: 0 <= i < |b.models| ==> ModelFits(b, b.models[i])
  }

  /** `&b.faces[model.faces.clone()]`. */
  function ModelFaces(b: BspFile, m: Model): (fs: seq<Face>)
    requires ModelFits(b, m)
    ensures forall k :: 0 <= k < |fs| ==> FaceFits(b, fs[k])
  {
    assert forall k :: 0 <= k < m.faces.end - m.faces.start ==> b.faces[m.faces.start..m.faces.end][k] == b.faces[m.faces.start + k];
    b.faces[m.faces.start..m.faces.end]
  }

  /** The texture info of a face. */
  function InfoOf(b: BspFile, f: Face): TextureInfo
    requires FaceFits(b, f)
  {
    b.textureInfo[f.textureInfo]
  }

  /** The texture a face is drawn with, through its texture info. */
  function TextureOf(b: BspFile, f: Face): Texture
    requires FaceFits(b, f)
  {
    b.textures[InfoOf(b, f).texture]
  }

  // ---------------------------------------------------------------------------------------
  // Light-map sizing

  /** The face gets a light-map tile: it is drawn, has a light map, and its light type is not `0xFF`. */
  predicate Lit(b: BspFile, f: Face)
    requires FaceFits(b, f)
  {
    !Excluded(TextureOf(b, f)) && f.lightMap != -1 && f.typeLight != 0xFF
  }

  /**
   * The entry the sizing loop pushes for a lit face. `extent` stands for the floating-point
   * computation of the tile's width and height from the face's texture coordinates.
   */
  function LightEntry(f: Face, extent: Face -> (u32, u32)): Sortable
  {
    Sortable(f.lightMap, extent(f).0, extent(f).1)
  }

  /** The sizing loop over a run of faces: one entry per lit face, in order. */
  function LightEntries(b: BspFile, extent: Face -> (u32, u32), fs: seq<Face>): (r: seq<Sortable>)
    requires forall k :: 0 <= k < |fs| ==> FaceFits(b, fs[k])
    ensures |r| <= |fs|
  {
    if |fs| == 0 then []
    else
      var f := fs[|fs| - 1];
      LightEntries(b, extent, fs[..|fs| - 1]) + (if Lit(b, f) then [LightEntry(f, extent)] else [])
  }

  /** The sizing loop over the first `n` models. */
  function ModelsLightEntries(b: BspFile, extent: Face -> (u32, u32), n: nat): seq<Sortable>
    requires LevelFits(b) && n <= |b.models|
  {
    if n == 0 then [] else ModelsLightEntries(b, extent, n - 1) + LightEntries(b, extent, ModelFaces(b, b.models[n - 1]))
  }

  /** Face `f` belongs to one of the level's models. */
  predicate InModel(b: BspFile, f: Face)
    requires LevelFits(b)
  {
    exists i, k :: 0 <= i < |b.models| && 0 <= k < |ModelFaces(b, b.models[i])| && ModelFaces(b, b.models[i])[k] == f
  }

  /** Every entry of the sizing loop is that of a lit face of the run. */
  lemma {:induction false} LemmaLightEntriesSound(b: BspFile, extent: Face -> (u32, u32), fs: seq<Face>)
    requires forall k :: 0 <= k < |fs| ==> FaceFits(b, fs[k])
    ensures forall e :: e in LightEntries(b, extent, fs) ==>
              exists k :: 0 <= k < |fs| && Lit(b, fs[k]) && e == LightEntry(fs[k], extent)
  {
    if |fs| > 0 {
      var init := fs[..|fs| - 1];
      LemmaLightEntriesSound(b, extent, init);
      forall e | e in LightEntries(b, extent, init)
        ensures exists k :: 0 <= k < |fs| && Lit(b, fs[k]) && e == LightEntry(fs[k], extent)
      {
        var k :| 0 <= k < |init| && Lit(b, init[k]) && e == LightEntry(init[k], extent);
        assert fs[k] == init[k];
      }
    }
  }

  /** Every lit face of the run has its entry. */
  lemma {:induction false} LemmaLightEntriesComplete(b: BspFile, extent: Face -> (u32, u32), fs: seq<Face>)
    requires forall k :: 0 <= k < |fs| ==> FaceFits(b, fs[k])
    ensures forall k :: 0 <= k < |fs| && Lit(b, fs[k]) ==> LightEntry(fs[k], extent) in LightEntries(b, extent, fs)
  {
    if |fs| > 0 {
      var init := fs[..|fs| - 1];
      LemmaLightEntriesComplete(b, extent, init);
      forall k | 0 <= k < |init| && Lit(b, fs[k])
        ensures LightEntry(fs[k], extent) in LightEntries(b, extent, fs)
      {
        assert fs[k] == init[k];
      }
    }
  }

  lemma LemmaLightEntries(b: BspFile, extent: Face -> (u32, u32), fs: seq<Face>)
    requires forall k :: 0 <= k < |fs| ==> FaceFits(b, fs[k])
    ensures forall e :: e in LightEntries(b, extent, fs) <==>
              exists k :: 0 <= k < |fs| && Lit(b, fs[k]) && e == LightEntry(fs[k], extent)
  {
    LemmaLightEntriesSound(b, extent, fs);
    LemmaLightEntriesComplete(b, extent, fs);
  }

  /**
   * The sizing loop lists exactly the lit faces of the level's models: an entry for every
   * such face (its light-map offset and extent), and nothing else — in particular no entry
   * for a face whose texture is missing or named `trigger`.
   */
  lemma {:induction false} LemmaModelsLightEntries(b: BspFile, extent: Face -> (u32, u32), n: nat)
    requires LevelFits(b) && n <= |b.models|
    ensures forall e :: e in ModelsLightEntries(b, extent, n) <==>
              exists i, k :: 0 <= i < n && 0 <= k < |ModelFaces(b, b.models[i])| &&
                Lit(b, ModelFaces(b, b.models[i])[k]) && e == LightEntry(ModelFaces(b, b.models[i])[k], extent)
  {
    if n > 0 {
      LemmaModelsLightEntries(b, extent, n - 1);
      LemmaLightEntries(b, extent, ModelFaces(b, b.models[n - 1]));
    }
  }

  /** The inner sizing loop, over one model's faces: skip faces not drawn or not lit, push the rest. */
  method SizeModelLights(b: BspFile, extent: Face -> (u32, u32), faces: seq<Face>) returns (lights: seq<Sortable>)
    requires forall k :: 0 <= k < |faces| ==> FaceFits(b, faces[k])
    ensures lights == LightEntries(b, extent, faces)
  {
    lights := [];
    var j := 0;
    while j < |faces|
      invariant 0 <= j <= |faces|
      invariant lights == LightEntries(b, extent, faces[..j])
    {
      var face := faces[j];
      assert faces[..j + 1][..j] == faces[..j];
      var tex := TextureOf(b, face);
      if !(tex.id == -1 || tex.name == TRIGGER) && !(face.lightMap == -1 || face.typeLight == 0xFF) {
        var size := extent(face);
        lights := lights + [Sortable(face.lightMap, size.0, size.1)];
      }
      j := j + 1;
    }
    assert faces[..j] == faces;
  }

  /**
   * The light-map sizing loop of `QMap::new`: for each model, for each of its faces, skip
   * faces not drawn or not lit and push the face's light-map entry.
   */
  method SizeLights(b: BspFile, extent: Face -> (u32, u32)) returns (lights: seq<Sortable>)
    requires LevelFits(b)
    ensures lights == ModelsLightEntries(b, extent, |b.models|)
  {
    lights := [];
    var i := 0;
    while i < |b.models|
      invariant 0 <= i <= |b.models|
      invariant lights == ModelsLightEntries(b, extent, i)
    {
      assert ModelFits(b, b.models[i]);
      var faces := ModelFaces(b, b.models[i]);
      var more := SizeModelLights(b, extent, faces);
      assert ModelsLightEntries(b, extent, i + 1) == lights + more;
      lights := lights + more;
      i := i + 1;
    }
  }

  // ---------------------------------------------------------------------------------------
  // Light-map atlas

  /** `max(min(v, n - 1), 0)`: the tile texel a border texel repeats. */
  function Clamp(v: int, n: int): (c: int)
    ensures 0 <= c && (n >= 1 ==> c <= n - 1)
    ensures 0 <= v < n ==> c == v
  {
    var m := if v < n - 1 then v else n - 1;
    if m < 0 then 0 else m
  }

  /** How many light-map bytes from its offset on a `w` by `h` tile reads. */
  function TileSpan(w: nat, h: nat): nat
  {
    if w == 0 then 1 else w * (if h == 0 then 1 else h)
  }

  /**
   * The light-map bytes of entry `e` are present (its offset is a position and the tile's
   * bytes follow it), and its size is small enough for the `i32` arithmetic on it.
   */
  predicate TileSourceFits(e: Sortable, lightMaps: nat)
  {
    0 <= e.idx && e.width < 0x7FFF_FFFE && e.height < 0x7FFF_FFFE && e.idx + TileSpan(e.width, e.height) <= lightMaps
  }

  lemma LemmaTileSourceInRange(e: Sortable, lightMaps: nat, x: int, y: int)
    requires TileSourceFits(e, lightMaps)
    ensures 0 <= e.idx + Clamp(x, e.width) + Clamp(y, e.height) * e.width < lightMaps
  {
    var c, r := Clamp(x, e.width), Clamp(y, e.height);
    if e.width == 0 {
      assert r * e.width == 0;
    } else {
      var rows := if e.height == 0 then 1 else e.height;
      assert r < rows && c < e.width;
      LemmaRowFits(r, e.width, rows);
      assert TileSpan(e.width, e.height) == e.width * rows;
    }
  }

  /**
   * The light-map byte that texel (x, y) of entry `e`'s tile shows, for x in -1..=width and
   * y in -1..=height: the texel itself inside the tile, its nearest edge texel on the border.
   */
  function TileSource(lm: seq<byte>, e: Sortable, x: int, y: int): byte
    requires TileSourceFits(e, |lm|)
  {
    LemmaTileSourceInRange(e, |lm|, x, y);
    lm[e.idx + Clamp(x, e.width) + Clamp(y, e.height) * e.width]
  }

  /** A tile's area together with its one-texel border. */
  function Border(tile: Rect): Rect
  {
    Rect(tile.x - 1, tile.y - 1, tile.width + 2, tile.height + 2)
  }

  /** The tile has the entry's size, and with its border it lies in the atlas. */
  predicate TileFits(tile: Rect, e: Sortable)
  {
    tile.width == e.width && tile.height == e.height &&
    1 <= tile.x && tile.x + tile.width + 1 <= ATLAS_SIZE && 1 <= tile.y && tile.y + tile.height + 1 <= ATLAS_SIZE
  }

  /** `level` shows entry `e`'s light map at `tile`, border included. */
  predicate ShowsTile(level: seq<byte>, tile: Rect, lm: seq<byte>, e: Sortable)
    requires TileSourceFits(e, |lm|)
  {
    |level| == ATLAS_SIZE * ATLAS_SIZE && TileFits(tile, e) &&
    forall x, y :: -1 <= x <= e.width && -1 <= y <= e.height ==>
      level[Cell(tile.x + x, tile.y + y, ATLAS_SIZE, ATLAS_SIZE)] == TileSource(lm, e, x, y)
  }

  /**
   * The copy loops of one light map: texel (x, y), for x in -1..=width and y in -1..=height,
   * goes to `(tile.x + x) + (tile.y + y) * ATLAS_SIZE`, read from the clamped position of
   * the light map; nothing outside the tile and its border changes.
   */
  method CopyTile(target: array<byte>, lm: seq<byte>, e: Sortable, tile: Rect)
    requires target.Length == ATLAS_SIZE * ATLAS_SIZE && TileSourceFits(e, |lm|) && TileFits(tile, e)
    modifies target
    ensures ShowsTile(target[..], tile, lm, e)
    ensures SameOutside(old(target[..]), target[..], ATLAS_SIZE, Border(tile))
  {
    var area := Border(tile);
    var y := -1;
    while y < e.height + 1
      invariant -1 <= y <= e.height + 1
      invariant forall x', y' :: -1 <= x' <= e.width && -1 <= y' < y ==>
                  target[Cell(tile.x + x', tile.y + y', ATLAS_SIZE, ATLAS_SIZE)] == TileSource(lm, e, x', y')
      invariant forall c, r :: 0 <= c < ATLAS_SIZE && 0 <= r < ATLAS_SIZE && !(Covers(area, c, r) && r < tile.y + y) ==>
                  target[Cell(c, r, ATLAS_SIZE, ATLAS_SIZE)] == old(target[Cell(c, r, ATLAS_SIZE, ATLAS_SIZE)])
    {
      CopyTileRow(target, lm, e, tile, y);
      forall x', y' | -1 <= x' <= e.width && -1 <= y' < y
        ensures target[Cell(tile.x + x', tile.y + y', ATLAS_SIZE, ATLAS_SIZE)] == TileSource(lm, e, x', y')
      {
        assert tile.y + y' != tile.y + y;
      }
      y := y + 1;
    }
  }

  /** Row `y` of the light-map copy, border texels included. */
  method CopyTileRow(target: array<byte>, lm: seq<byte>, e: Sortable, tile: Rect, y: int)
    requires target.Length == ATLAS_SIZE * ATLAS_SIZE && TileSourceFits(e, |lm|) && TileFits(tile, e)
    requires -1 <= y <= e.height
    modifies target
    ensures forall x' :: -1 <= x' <= e.width ==>
              target[Cell(tile.x + x', tile.y + y, ATLAS_SIZE, ATLAS_SIZE)] == TileSource(lm, e, x', y)
    ensures forall c, r :: 0 <= c < ATLAS_SIZE && 0 <= r < ATLAS_SIZE && !(r == tile.y + y && tile.x - 1 <= c <= tile.x + e.width) ==>
              target[Cell(c, r, ATLAS_SIZE, ATLAS_SIZE)] == old(target[Cell(c, r, ATLAS_SIZE, ATLAS_SIZE)])
  {
    var x := -1;
    while x < e.width + 1
      invariant -1 <= x <= e.width + 1
      invariant forall x' :: -1 <= x' < x ==>
                  target[Cell(tile.x + x', tile.y + y, ATLAS_SIZE, ATLAS_SIZE)] == TileSource(lm, e, x', y)
      invariant forall c, r :: 0 <= c < ATLAS_SIZE && 0 <= r < ATLAS_SIZE && !(r == tile.y + y && tile.x - 1 <= c < tile.x + x) ==>
                  target[Cell(c, r, ATLAS_SIZE, ATLAS_SIZE)] == old(target[Cell(c, r, ATLAS_SIZE, ATLAS_SIZE)])
    {
      var idx := Cell(tile.x + x, tile.y + y, ATLAS_SIZE, ATLAS_SIZE);
      forall c, r | 0 <= c < ATLAS_SIZE && 0 <= r < ATLAS_SIZE
        ensures Cell(c, r, ATLAS_SIZE, ATLAS_SIZE) == idx ==> c == tile.x + x && r == tile.y + y
      {
        LemmaCellInjective(c, r, tile.x + x, tile.y + y, ATLAS_SIZE, ATLAS_SIZE);
      }
      var sy := Clamp(y, e.height);
      var sx := Clamp(x, e.width);
      LemmaTileSourceInRange(e, |lm|, x, y);
      target[idx] := lm[e.idx + sx + sy * e.width];
      x := x + 1;
    }
  }

  /** A copy outside a tile's border leaves the tile shown. */
  lemma LemmaShowsTileKept(before: seq<byte>, after: seq<byte>, tile: Rect, lm: seq<byte>, e: Sortable, other: Rect)
    requires TileSourceFits(e, |lm|) && ShowsTile(before, tile, lm, e)
    requires SameOutside(before, after, ATLAS_SIZE, other) && Disjoint(Border(tile), other)
    ensures ShowsTile(after, tile, lm, e)
  {
    LemmaDisjointMeansNoCommonCell(Border(tile), other);
    forall x, y | -1 <= x <= e.width && -1 <= y <= e.height
      ensures after[Cell(tile.x + x, tile.y + y, ATLAS_SIZE, ATLAS_SIZE)] == TileSource(lm, e, x, y)
    {
      assert Covers(Border(tile), tile.x + x, tile.y + y);
    }
  }

  /** The light-map atlas of `QMap::new`: padded by one texel, `ATLAS_SIZE` square. */
  ghost predicate LightAtlasReady(atlas: TextureAtlas)
    reads atlas
  {
    atlas.Valid() && atlas.padding == 1 && atlas.width == ATLAS_SIZE && atlas.height == ATLAS_SIZE
  }

  /**
   * One round of the light-map loop: find room for the tile and its border (`unwrap`: a full
   * atlas panics, reported as `None`) and copy the light map in.
   */
  method PackLight(atlas: TextureAtlas, lm: seq<byte>, e: Sortable, target: array<byte>,
                   ghost frees: seq<Rect>, ghost sizes: seq<(int, int)>, ghost i: nat)
    returns (tile: Option<Rect>)
    requires LightAtlasReady(atlas) && target.Length == ATLAS_SIZE * ATLAS_SIZE && TileSourceFits(e, |lm|)
    requires i < |sizes| && sizes[i] == (e.width as int, e.height as int)
    requires RunReaches(frees, 1, sizes[..i], atlas.freeRects, atlas.placed)
    modifies atlas, target
    ensures LightAtlasReady(atlas)
    ensures tile.None? ==> PackRun(frees, 1, sizes).None?
    ensures tile.Some? ==> RunReaches(frees, 1, sizes[..i + 1], atlas.freeRects, atlas.placed)
    ensures var step := FindStep(old(atlas.freeRects), e.width as int + 2 * atlas.padding, e.height as int + 2 * atlas.padding);
            (tile.Some? <==> step.Some?) &&
            (tile.Some? ==> tile.value == Inner(step.value.1, 1) && atlas.freeRects == step.value.0 &&
                            atlas.placed == old(atlas.placed) + [step.value.1])
    ensures tile.Some? ==>
              |atlas.placed| == |old(atlas.placed)| + 1 && atlas.placed[..|old(atlas.placed)|] == old(atlas.placed) &&
              atlas.placed[|old(atlas.placed)|] == Border(tile.value) && ShowsTile(target[..], tile.value, lm, e) &&
              SameOutside(old(target[..]), target[..], ATLAS_SIZE, Border(tile.value))
  {
    tile := FindInRun(atlas, e.width as int, e.height as int, frees, sizes, i);
    if tile.None? {
      return;
    }
    assert Border(tile.value) == atlas.placed[|atlas.placed| - 1];
    assert Within(Border(tile.value), Rect(0, 0, ATLAS_SIZE, ATLAS_SIZE));
    CopyTile(target, lm, e, tile.value);
  }

  /** Copying tile `i` into its bordered placement, apart from the earlier ones, keeps the earlier tiles shown. */
  lemma LemmaTilesKept(before: seq<byte>, after: seq<byte>, lm: seq<byte>, order: seq<Sortable>,
                       tiles: seq<(i32, Rect)>, placed: seq<Rect>, i: nat)
    requires forall j :: 0 <= j < |order| ==> TileSourceFits(order[j], |lm|)
    requires i < |order| && i < |placed| && |tiles| == i
    requires forall j :: 0 <= j < i ==> Disjoint(placed[j], placed[i])
    requires forall j :: 0 <= j < i ==> placed[j] == Border(tiles[j].1) && ShowsTile(before, tiles[j].1, lm, order[j])
    requires SameOutside(before, after, ATLAS_SIZE, placed[i])
    ensures forall j :: 0 <= j < i ==> ShowsTile(after, tiles[j].1, lm, order[j])
  {
    forall j | 0 <= j < i
      ensures ShowsTile(after, tiles[j].1, lm, order[j])
    {
      LemmaShowsTileKept(before, after, tiles[j].1, lm, order[j], placed[i]);
    }
  }

  /**
   * The light-map loop of `QMap::new`: in packing order, each entry gets its own tile, and
   * every tile shows its light map, border included — no later tile overwrites an earlier
   * one. The pairs are the `(offset, tile)` list collected into the lookup map.
   */
  method PackLights(atlas: TextureAtlas, lm: seq<byte>, order: seq<Sortable>, target: array<byte>)
    returns (ok: bool, tiles: seq<(i32, Rect)>)
    requires LightAtlasReady(atlas) && atlas.placed == [] && target.Length == ATLAS_SIZE * ATLAS_SIZE
    requires forall j :: 0 <= j < |order| ==> TileSourceFits(order[j], |lm|)
    modifies atlas, target
    ensures LightAtlasReady(atlas)
    ensures var run := PackRun(old(atlas.freeRects), 1, SizesOf(order));
            (ok <==> run.Some?) && (ok ==> atlas.placed == run.value.1)
    ensures ok ==> |tiles| == |order| && |atlas.placed| == |order|
    ensures ok ==> tiles == LightPairs(order, atlas.placed)
    ensures ok ==> forall j :: 0 <= j < |order| ==>
              tiles[j].0 == order[j].idx && atlas.placed[j] == Border(tiles[j].1) && ShowsTile(target[..], tiles[j].1, lm, order[j])
  {
    ghost var frees := atlas.freeRects;
    tiles := [];
    var i := 0;
    while i < |order|
      invariant 0 <= i <= |order| && |tiles| == i
      invariant LightAtlasReady(atlas) && |atlas.placed| == i
      invariant RunReaches(frees, 1, SizesOf(order)[..i], atlas.freeRects, atlas.placed)
      invariant forall j :: 0 <= j < i ==>
                  tiles[j].0 == order[j].idx && atlas.placed[j] == Border(tiles[j].1) && ShowsTile(target[..], tiles[j].1, lm, order[j])
    {
      ghost var before, placedBefore := target[..], atlas.placed;
      var tile := PackLight(atlas, lm, order[i], target, frees, SizesOf(order), i);
      if tile.None? {
        return false, tiles;
      }
      LemmaTilesKept(before, target[..], lm, order, tiles, atlas.placed, i);
      tiles := tiles + [(order[i].idx, tile.value)];
      i := i + 1;
    }
    assert SizesOf(order)[..i] == SizesOf(order);
    assert tiles == LightPairs(order, atlas.placed);
    ok := true;
  }

  /** The `(offset, tile)` pairs of a light-map run: entry `j`'s offset and the area inside placement `j`. */
  function LightPairs(order: seq<Sortable>, placed: seq<Rect>): seq<(i32, Rect)>
    requires |placed| == |order|
  {
    seq(|order|, j requires 0 <= j < |order| => (order[j].idx, Inner(placed[j], 1)))
  }

  /** `collect::<HashMap<_, _>>()`: later pairs overwrite earlier pairs with the same key. */
  function ToMap(pairs: seq<(i32, Rect)>): map<i32, Rect>
  {
    if |pairs| == 0 then map[] else ToMap(pairs[..|pairs| - 1])[pairs[|pairs| - 1].0 := pairs[|pairs| - 1].1]
  }

  /** The map holds exactly the keys of the pairs, each with the value of its last pair. */
  lemma {:induction false} LemmaToMap(pairs: seq<(i32, Rect)>)
    ensures forall k :: k in ToMap(pairs) <==> exists j :: 0 <= j < |pairs| && pairs[j].0 == k
    ensures forall k :: k in ToMap(pairs) ==>
              exists j :: 0 <= j < |pairs| && pairs[j] == (k, ToMap(pairs)[k]) &&
                forall j' :: j < j' < |pairs| ==> pairs[j'].0 != k
  {
    if |pairs| > 0 {
      var init, last := pairs[..|pairs| - 1], pairs[|pairs| - 1];
      LemmaToMap(init);
      forall k
        ensures k in ToMap(pairs) <==> exists j :: 0 <= j < |pairs| && pairs[j].0 == k
      {
        if k != last.0 && exists j :: 0 <= j < |pairs| && pairs[j].0 == k {
          var j :| 0 <= j < |pairs| && pairs[j].0 == k;
          assert init[j] == pairs[j];
        }
        if k in ToMap(init) {
          var j :| 0 <= j < |init| && init[j].0 == k;
          assert pairs[j] == init[j];
        }
      }
      forall k | k in ToMap(pairs)
        ensures exists j :: 0 <= j < |pairs| && pairs[j] == (k, ToMap(pairs)[k]) &&
                  forall j' :: j < j' < |pairs| ==> pairs[j'].0 != k
      {
        if k == last.0 {
          assert pairs[|pairs| - 1] == (k, ToMap(pairs)[k]);
        } else {
          var j :| 0 <= j < |init| && init[j] == (k, ToMap(init)[k]) && forall j' :: j < j' < |init| ==> init[j'].0 != k;
          assert pairs[j] == init[j];
          forall j' | j < j' < |pairs|
            ensures pairs[j'].0 != k
          {
            if j' < |init| {
              assert pairs[j'] == init[j'];
            }
          }
        }
      }
    }
  }

  // ---------------------------------------------------------------------------------------
  // Geometry

  /** `"sky"` as bytes. */
  const SKY: seq<byte> := [0x73, 0x6B, 0x79]

  /** Faces whose texture name starts with `sky` go to the sky buffer. */
  predicate IsSky(t: Texture)
  {
    |t.name| >= 3 && t.name[..3] == SKY
  }

  /** Texture names starting with `+` or `*` are drawn full-bright, without a light map. */
  predicate Fullbright(t: Texture)
  {
    |t.name| > 0 && (t.name[0] == 0x2B || t.name[0] == 0x2A)
  }

  /** `base_light`: 127 for a full-bright texture, the face's own otherwise. */
  function BaseLight(t: Texture, f: Face): byte
  {
    if Fullbright(t) then 127 else f.baseLight
  }

  /** `type_light`: `0xFF` for a full-bright texture, the face's own otherwise. */
  function LightType(t: Texture, f: Face): byte
  {
    if Fullbright(t) then 0xFF else f.typeLight
  }

  /** `light`: 0 when `base_light` is 255, otherwise the face's raw `base_light`. */
  function FaceLight(t: Texture, f: Face): byte
  {
    if BaseLight(t, f) == 255 then 0 else f.baseLight
  }

  /** The face looks its light-map tile up: its light type is not `0xFF` and it has a light map. */
  predicate NeedsTile(b: BspFile, f: Face)
    requires FaceFits(b, f)
  {
    LightType(TextureOf(b, f), f) != 0xFF && f.lightMap != -1
  }

  /** `as u16` of an `i32`: its low sixteen bits. */
  function U16Of(v: int): (r: u16)
    ensures 0 <= v < 0x1_0000 ==> r == v
  {
    v % 0x1_0000
  }

  /** A point of a face before the model's origin is added: an edge end, or the face's centre. */
  datatype Spot = Corner(v: Vec3) | Centre(face: Face)

  /** A vertex position: a model's origin plus a spot, or a corner of a sky-box layer. */
  datatype Position = Offset(origin: Vec3, spot: Spot) | SkyCorner(maxX: bool, maxY: bool, layer: nat)

  /** The first two `tex_info` values: the spot projected on the texture axes, or `[0, 0]`. */
  datatype Surface = Projected(spot: Spot, info: TextureInfo) | Flat

  /**
   * `light_info`: `[-1, -1]` without a light map; the spot's projection over 16 when the
   * light type is `0xFF`; the tile's corner plus that projection, less the face's smallest
   * projection, when the face has a tile; `[0, 0]` on the sky box.
   */
  datatype LightUV = Unlit | Unplaced(spot: Spot, info: TextureInfo) | Tiled(x: int, y: int, face: Face, spot: Spot, info: TextureInfo) | Origin

  /** `Vertex`: position, atlas offset, surface projection and size, light coordinates, light, light type. */
  datatype Vertex = Vertex(
    position: Position, tex: (u16, u16), surface: Surface, size: (i16, i16),
    lightInfo: LightUV, light: byte, lightType: byte)

  /** The face fits the level and, when drawn and in need of a tile, finds it in `lights`. */
  predicate FaceReady(b: BspFile, f: Face, lights: map<i32, Rect>)
  {
    FaceFits(b, f) && (!Excluded(TextureOf(b, f)) && NeedsTile(b, f) ==> f.lightMap in lights)
  }

  /** Every face of every model is ready: `lights[&face.light_map]` never misses. */
  predicate TilesCover(b: BspFile, lights: map<i32, Rect>)
    requires LevelFits(b)
  {
    forall i, k :: 0 <= i < |b.models| && 0 <= k < |ModelFaces(b, b.models[i])| ==>
      FaceReady(b, ModelFaces(b, b.models[i])[k], lights)
  }

  /** A ready face that is drawn, with one atlas area per texture. */
  predicate Drawable(b: BspFile, f: Face, rects: seq<Rect>, lights: map<i32, Rect>)
  {
    FaceReady(b, f, lights) && Indexed(b.textures) && |rects| == |b.textures| && !Excluded(TextureOf(b, f))
  }

  /** The light-map tile a face looks up, if it needs one. */
  function TileOf(b: BspFile, f: Face, lights: map<i32, Rect>): Option<Rect>
    requires FaceFits(b, f) && (NeedsTile(b, f) ==> f.lightMap in lights)
  {
    if NeedsTile(b, f) then Some(lights[f.lightMap]) else None
  }

  /** `light_info` of a spot, given the face's light map and the tile it looked up. */
  function LightInfo(f: Face, tile: Option<Rect>, spot: Spot, info: TextureInfo): LightUV
  {
    if f.lightMap == -1 then Unlit
    else if tile.None? then Unplaced(spot, info)
    else Tiled(tile.value.x, tile.value.y, f, spot, info)
  }

  /** The atlas area of the face's texture, `textures[tex.id]`. */
  function AreaOf(b: BspFile, f: Face, rects: seq<Rect>): Rect
    requires FaceFits(b, f) && Indexed(b.textures) && |rects| == |b.textures| && !Excluded(TextureOf(b, f))
  {
    rects[TextureOf(b, f).id]
  }

  /**
   * The vertex literal of the emission loop: the spot offset by the model's origin, the
   * texture's atlas corner, the spot's projection, the texture's size, the light coordinates
   * and the face's light values.
   */
  function FaceVertex(origin: Vec3, spot: Spot, area: Rect, t: Texture, info: TextureInfo, f: Face, tile: Option<Rect>,
                      light: byte, lightType: byte): Vertex
  {
    Vertex(Offset(origin, spot), (U16Of(area.x), U16Of(area.y)), Projected(spot, info),
           (AsI16(t.width), AsI16(t.height)), LightInfo(f, tile, spot, info), light, lightType)
  }

  /** The vertex pushed for a spot of face `f` of model `m`. */
  function VertexAt(b: BspFile, m: Model, f: Face, rects: seq<Rect>, lights: map<i32, Rect>, spot: Spot): Vertex
    requires Drawable(b, f, rects, lights)
  {
    var t := TextureOf(b, f);
    FaceVertex(m.origin, spot, AreaOf(b, f, rects), t, InfoOf(b, f), f, TileOf(b, f, lights), FaceLight(t, f), LightType(t, f))
  }

  /** The ends of the edge a reference names, in drawing order: swapped for a non-negative reference. */
  function Ends(b: BspFile, l: i32): (Vec3, Vec3)
    requires -|b.edges| < l < |b.edges|
  {
    var e := b.edges[if l >= 0 then l else -(l as int)];
    if l >= 0 then (e.second, e.first) else (e.first, e.second)
  }

  /** The face's edge references, `&b.ledges[face.ledges.clone()]`. */
  function Refs(b: BspFile, f: Face): (refs: seq<i32>)
    requires FaceFits(b, f)
    ensures forall k :: 0 <= k < |refs| ==> -|b.edges| < refs[k] < |b.edges|
  {
    assert forall k :: 0 <= k < f.ledges.end - f.ledges.start ==> b.ledges[f.ledges.start..f.ledges.end][k] == b.ledges[f.ledges.start + k];
    b.ledges[f.ledges.start..f.ledges.end]
  }

  /** The triangle of one edge reference: its two ends in drawing order, then the face's centre. */
  function Triangle(b: BspFile, m: Model, f: Face, rects: seq<Rect>, lights: map<i32, Rect>, l: i32): seq<Vertex>
    requires Drawable(b, f, rects, lights) && -|b.edges| < l < |b.edges|
  {
    var ends := Ends(b, l);
    [VertexAt(b, m, f, rects, lights, Corner(ends.0)), VertexAt(b, m, f, rects, lights, Corner(ends.1)),
     VertexAt(b, m, f, rects, lights, Centre(f))]
  }

  /** The triangles of a run of edge references, in order. */
  function Triangles(b: BspFile, m: Model, f: Face, rects: seq<Rect>, lights: map<i32, Rect>, refs: seq<i32>): (vs: seq<Vertex>)
    requires Drawable(b, f, rects, lights) && forall k :: 0 <= k < |refs| ==> -|b.edges| < refs[k] < |b.edges|
  {
    if |refs| == 0 then []
    else Triangles(b, m, f, rects, lights, refs[..|refs| - 1]) + Triangle(b, m, f, rects, lights, refs[|refs| - 1])
  }

  /** The vertices of face `f`: one triangle per edge reference. */
  function FaceVerts(b: BspFile, m: Model, f: Face, rects: seq<Rect>, lights: map<i32, Rect>): seq<Vertex>
    requires Drawable(b, f, rects, lights)
  {
    Triangles(b, m, f, rects, lights, Refs(b, f))
  }

  /** A triangle per reference: the count and the order of the face's vertices. */
  lemma {:induction false} LemmaTriangles(b: BspFile, m: Model, f: Face, rects: seq<Rect>, lights: map<i32, Rect>, refs: seq<i32>)
    requires Drawable(b, f, rects, lights) && forall k :: 0 <= k < |refs| ==> -|b.edges| < refs[k] < |b.edges|
    ensures |Triangles(b, m, f, rects, lights, refs)| == 3 * |refs|
    ensures forall k :: 0 <= k < |refs| ==>
              Triangles(b, m, f, rects, lights, refs)[3 * k..3 * k + 3] == Triangle(b, m, f, rects, lights, refs[k])
  {
    if |refs| > 0 {
      var init := refs[..|refs| - 1];
      LemmaTriangles(b, m, f, rects, lights, init);
      var vs, prev := Triangles(b, m, f, rects, lights, refs), Triangles(b, m, f, rects, lights, init);
      forall k | 0 <= k < |refs|
        ensures vs[3 * k..3 * k + 3] == Triangle(b, m, f, rects, lights, refs[k])
      {
        if k < |init| {
          assert vs[3 * k..3 * k + 3] == prev[3 * k..3 * k + 3];
          assert init[k] == refs[k];
        }
      }
    }
  }

  /**
   * The vertices of a face: three per edge reference — the reference's two edge ends in
   * drawing order (swapped for a non-negative reference) and the face's centre — each placed
   * at the model's origin.
   */
  lemma LemmaFaceVertsWinding(b: BspFile, m: Model, f: Face, rects: seq<Rect>, lights: map<i32, Rect>)
    requires Drawable(b, f, rects, lights)
    ensures |FaceVerts(b, m, f, rects, lights)| == 3 * (f.ledges.end - f.ledges.start)
    ensures forall k :: 0 <= k < f.ledges.end - f.ledges.start ==>
              var l, vs := b.ledges[f.ledges.start + k], FaceVerts(b, m, f, rects, lights);
              var e := b.edges[if l >= 0 then l else -(l as int)];
              vs[3 * k].position == Offset(m.origin, Corner(if l >= 0 then e.second else e.first)) &&
              vs[3 * k + 1].position == Offset(m.origin, Corner(if l >= 0 then e.first else e.second)) &&
              vs[3 * k + 2].position == Offset(m.origin, Centre(f))
  {
    var refs := Refs(b, f);
    LemmaTriangles(b, m, f, rects, lights, refs);
    var vs := FaceVerts(b, m, f, rects, lights);
    forall k | 0 <= k < |refs|
      ensures var l := b.ledges[f.ledges.start + k];
              var e := b.edges[if l >= 0 then l else -(l as int)];
              vs[3 * k].position == Offset(m.origin, Corner(if l >= 0 then e.second else e.first)) &&
              vs[3 * k + 1].position == Offset(m.origin, Corner(if l >= 0 then e.first else e.second)) &&
              vs[3 * k + 2].position == Offset(m.origin, Centre(f))
    {
      var tri := Triangle(b, m, f, rects, lights, refs[k]);
      assert vs[3 * k..3 * k + 3] == tri;
      assert vs[3 * k] == tri[0] && vs[3 * k + 1] == tri[1] && vs[3 * k + 2] == tri[2];
      assert refs[k] == b.ledges[f.ledges.start + k];
    }
  }

  /** The per-face fields of a vertex of face `f`. */
  predicate FaceFields(b: BspFile, f: Face, rects: seq<Rect>, lights: map<i32, Rect>, v: Vertex)
    requires Drawable(b, f, rects, lights)
  {
    var t := TextureOf(b, f);
    v.tex == (U16Of(rects[t.id].x), U16Of(rects[t.id].y)) &&
    v.size == (AsI16(t.width), AsI16(t.height)) &&
    v.light == (if !Fullbright(t) && f.baseLight == 255 then 0 else f.baseLight) &&
    v.lightType == (if Fullbright(t) then 0xFF else f.typeLight) &&
    (v.lightInfo == Unlit <==> f.lightMap == -1) &&
    (v.lightInfo.Tiled? <==> NeedsTile(b, f)) &&
    (v.lightInfo.Tiled? ==> v.lightInfo.x == lights[f.lightMap].x && v.lightInfo.y == lights[f.lightMap].y)
  }

  /**
   * Every vertex of a face carries the face's texture area as `tex`, the texture's size,
   * the light type (`0xFF` for a full-bright texture), the light (the face's raw
   * `base_light`, or 0 when a texture that is not full-bright has 255), light coordinates
   * `[-1, -1]` exactly when the face has no light map, and tile coordinates exactly when it
   * needs a tile.
   */
  lemma LemmaFaceVertsFields(b: BspFile, m: Model, f: Face, rects: seq<Rect>, lights: map<i32, Rect>)
    requires Drawable(b, f, rects, lights)
    ensures forall i :: 0 <= i < |FaceVerts(b, m, f, rects, lights)| ==>
              FaceFields(b, f, rects, lights, FaceVerts(b, m, f, rects, lights)[i])
  {
    var refs := Refs(b, f);
    LemmaTriangles(b, m, f, rects, lights, refs);
    var vs := FaceVerts(b, m, f, rects, lights);
    forall i | 0 <= i < |vs|
      ensures FaceFields(b, f, rects, lights, vs[i])
    {
      var k := i / 3;
      var tri := Triangle(b, m, f, rects, lights, refs[k]);
      assert vs[3 * k..3 * k + 3] == tri;
      assert vs[i] == tri[i - 3 * k];
      LemmaTriangleFields(b, m, f, rects, lights, refs[k]);
    }
  }

  /** The three vertices of one triangle carry the face's fields. */
  lemma LemmaTriangleFields(b: BspFile, m: Model, f: Face, rects: seq<Rect>, lights: map<i32, Rect>, l: i32)
    requires Drawable(b, f, rects, lights) && -|b.edges| < l < |b.edges|
    ensures forall j :: 0 <= j < |Triangle(b, m, f, rects, lights, l)| ==>
              FaceFields(b, f, rects, lights, Triangle(b, m, f, rects, lights, l)[j])
  {
    var tri := Triangle(b, m, f, rects, lights, l);
    assert FaceFields(b, f, rects, lights, tri[0]) && FaceFields(b, f, rects, lights, tri[1]) &&
           FaceFields(b, f, rects, lights, tri[2]);
  }

  /** The face is drawn, into the sky buffer when `sky` holds and the main one otherwise. */
  predicate DrawnTo(b: BspFile, f: Face, sky: bool)
    requires FaceFits(b, f)
  {
    !Excluded(TextureOf(b, f)) && IsSky(TextureOf(b, f)) == sky
  }

  /** The faces of a run are ready, and textures have one atlas area each. */
  predicate RunReady(b: BspFile, fs: seq<Face>, rects: seq<Rect>, lights: map<i32, Rect>)
  {
    Indexed(b.textures) && |rects| == |b.textures| && forall k :: 0 <= k < |fs| ==> FaceReady(b, fs[k], lights)
  }

  /** What one buffer receives from a run of faces: the vertices of each face drawn into it, in order. */
  function RunVerts(b: BspFile, m: Model, fs: seq<Face>, rects: seq<Rect>, lights: map<i32, Rect>, sky: bool): seq<Vertex>
    requires RunReady(b, fs, rects, lights)
  {
    if |fs| == 0 then []
    else
      var f := fs[|fs| - 1];
      RunVerts(b, m, fs[..|fs| - 1], rects, lights, sky) + (if DrawnTo(b, f, sky) then FaceVerts(b, m, f, rects, lights) else [])
  }

  /** The level is ready to draw with these texture areas and tiles. */
  predicate GeometryReady(b: BspFile, rects: seq<Rect>, lights: map<i32, Rect>)
  {
    LevelFits(b) && TilesCover(b, lights) && |rects| == |b.textures|
  }

  /** What one buffer receives from the first `n` models. */
  function ModelsVerts(b: BspFile, rects: seq<Rect>, lights: map<i32, Rect>, n: nat, sky: bool): seq<Vertex>
    requires GeometryReady(b, rects, lights) && n <= |b.models|
  {
    if n == 0 then []
    else ModelsVerts(b, rects, lights, n - 1, sky) + RunVerts(b, b.models[n - 1], ModelFaces(b, b.models[n - 1]), rects, lights, sky)
  }

  /** `sky_texture` after a run of faces: the id of the last sky face's texture, else `prior`. */
  function RunSky(b: BspFile, fs: seq<Face>, prior: Option<i32>): Option<i32>
    requires forall k :: 0 <= k < |fs| ==> FaceFits(b, fs[k])
  {
    if |fs| == 0 then prior
    else
      var f := fs[|fs| - 1];
      if DrawnTo(b, f, true) then Some(TextureOf(b, f).id) else RunSky(b, fs[..|fs| - 1], prior)
  }

  /** `sky_texture` after the first `n` models. */
  function ModelsSky(b: BspFile, n: nat): Option<i32>
    requires LevelFits(b) && n <= |b.models|
  {
    if n == 0 then None else RunSky(b, ModelFaces(b, b.models[n - 1]), ModelsSky(b, n - 1))
  }

  /** No face of the run is drawn into the sky buffer. */
  predicate NoSkyFace(b: BspFile, fs: seq<Face>)
    requires forall k :: 0 <= k < |fs| ==> FaceFits(b, fs[k])
  {
    forall k :: 0 <= k < |fs| ==> !DrawnTo(b, fs[k], true)
  }

  /** The sky texture after a run is that of its last face drawn into the sky buffer. */
  lemma {:induction false} LemmaRunSkyLast(b: BspFile, fs: seq<Face>, prior: Option<i32>, k: nat)
    requires forall i :: 0 <= i < |fs| ==> FaceFits(b, fs[i])
    requires k < |fs| && DrawnTo(b, fs[k], true) && NoSkyFace(b, fs[k + 1..])
    ensures RunSky(b, fs, prior) == Some(TextureOf(b, fs[k]).id)
  {
    var init := fs[..|fs| - 1];
    if k < |init| {
      assert fs[k + 1..][|fs| - k - 2] == fs[|fs| - 1];
      assert init[k] == fs[k];
      assert init[k + 1..] == fs[k + 1..][..|fs| - k - 2];
      LemmaRunSkyLast(b, init, prior, k);
    }
  }

  /** How many edge references the faces of a run drawn into one buffer have. */
  function DrawnRefs(b: BspFile, fs: seq<Face>, sky: bool): nat
    requires forall k :: 0 <= k < |fs| ==> FaceFits(b, fs[k])
  {
    if |fs| == 0 then 0
    else
      var f := fs[|fs| - 1];
      DrawnRefs(b, fs[..|fs| - 1], sky) + (if DrawnTo(b, f, sky) then f.ledges.end - f.ledges.start else 0)
  }

  /**
   * A buffer receives three vertices per edge reference of the faces drawn into it, and
   * none from faces not drawn (missing or `trigger` textures) or routed to the other buffer.
   */
  lemma {:induction false} LemmaRunVertsCount(b: BspFile, m: Model, fs: seq<Face>, rects: seq<Rect>, lights: map<i32, Rect>, sky: bool)
    requires RunReady(b, fs, rects, lights)
    ensures |RunVerts(b, m, fs, rects, lights, sky)| == 3 * DrawnRefs(b, fs, sky)
  {
    if |fs| > 0 {
      var init, f := fs[..|fs| - 1], fs[|fs| - 1];
      LemmaRunVertsCount(b, m, init, rects, lights, sky);
      if DrawnTo(b, f, sky) {
        LemmaFaceVertsWinding(b, m, f, rects, lights);
      }
    }
  }

  /** One more edge reference: its triangle follows those of the references before it. */
  lemma LemmaTrianglesStep(b: BspFile, m: Model, f: Face, rects: seq<Rect>, lights: map<i32, Rect>, refs: seq<i32>, k: nat)
    requires Drawable(b, f, rects, lights) && k < |refs| && forall i :: 0 <= i < |refs| ==> -|b.edges| < refs[i] < |b.edges|
    ensures Triangles(b, m, f, rects, lights, refs[..k + 1]) ==
              Triangles(b, m, f, rects, lights, refs[..k]) + Triangle(b, m, f, rects, lights, refs[k])
  {
    assert refs[..k + 1][..k] == refs[..k];
  }

  /**
   * One edge reference of the emission loop: push its two ends in drawing order, then the
   * face's centre, each with the face's fixed attributes.
   */
  method PushTriangle(b: BspFile, m: Model, f: Face, rects: seq<Rect>, lights: map<i32, Rect>, l: i32, vs: seq<Vertex>,
                      tex: Texture, info: TextureInfo, trect: Rect, tile: Option<Rect>, light: byte, typeLight: byte)
    returns (vs': seq<Vertex>)
    requires Drawable(b, f, rects, lights) && -|b.edges| < l < |b.edges|
    requires tex == TextureOf(b, f) && info == InfoOf(b, f) && trect == AreaOf(b, f, rects) && tile == TileOf(b, f, lights)
    requires light == FaceLight(tex, f) && typeLight == LightType(tex, f)
    ensures vs' == vs + Triangle(b, m, f, rects, lights, l)
  {
    var e := b.edges[if l >= 0 then l else -(l as int)];
    var av, bv := if l >= 0 then e.second else e.first, if l >= 0 then e.first else e.second;
    vs' := vs + [FaceVertex(m.origin, Corner(av), trect, tex, info, f, tile, light, typeLight)];
    vs' := vs' + [FaceVertex(m.origin, Corner(bv), trect, tex, info, f, tile, light, typeLight)];
    vs' := vs' + [FaceVertex(m.origin, Centre(f), trect, tex, info, f, tile, light, typeLight)];
    assert (av, bv) == Ends(b, l);
  }

  /**
   * One face of the emission loop: its three vertices per edge reference, built as the
   * source builds them — atlas offset, size, light and light type fixed for the face, the
   * tile looked up once when the face needs it.
   */
  method EmitFace(b: BspFile, m: Model, f: Face, rects: seq<Rect>, lights: map<i32, Rect>) returns (vs: seq<Vertex>)
    requires Drawable(b, f, rects, lights)
    ensures vs == FaceVerts(b, m, f, rects, lights)
  {
    var tex, info := TextureOf(b, f), InfoOf(b, f);
    var baseLight, typeLight := f.baseLight, f.typeLight;
    if |tex.name| > 0 && (tex.name[0] == 0x2B || tex.name[0] == 0x2A) {
      baseLight, typeLight := 127, 0xFF;
    }
    var light := if baseLight == 255 then 0 else f.baseLight;
    var tile: Option<Rect> := None;
    if typeLight != 0xFF && f.lightMap != -1 {
      tile := Some(lights[f.lightMap]);
    }
    var trect := rects[tex.id];
    var refs := Refs(b, f);
    vs := [];
    var k := 0;
    while k < |refs|
      invariant 0 <= k <= |refs|
      invariant vs == Triangles(b, m, f, rects, lights, refs[..k])
    {
      vs := PushTriangle(b, m, f, rects, lights, refs[k], vs, tex, info, trect, tile, light, typeLight);
      LemmaTrianglesStep(b, m, f, rects, lights, refs, k);
      k := k + 1;
    }
    assert refs[..k] == refs;
  }


  /** One more face of a run: what each buffer receives and the sky texture after it. */
  lemma LemmaRunStep(b: BspFile, m: Model, fs: seq<Face>, k: nat, rects: seq<Rect>, lights: map<i32, Rect>, prior: Option<i32>)
    requires RunReady(b, fs, rects, lights) && k < |fs|
    ensures RunReady(b, fs[..k], rects, lights) && RunReady(b, fs[..k + 1], rects, lights)
    ensures RunVerts(b, m, fs[..k + 1], rects, lights, false) ==
              RunVerts(b, m, fs[..k], rects, lights, false) + (if DrawnTo(b, fs[k], false) then FaceVerts(b, m, fs[k], rects, lights) else [])
    ensures RunVerts(b, m, fs[..k + 1], rects, lights, true) ==
              RunVerts(b, m, fs[..k], rects, lights, true) + (if DrawnTo(b, fs[k], true) then FaceVerts(b, m, fs[k], rects, lights) else [])
    ensures RunSky(b, fs[..k + 1], prior) == if DrawnTo(b, fs[k], true) then Some(TextureOf(b, fs[k]).id) else RunSky(b, fs[..k], prior)
  {
    assert fs[..k + 1][..k] == fs[..k];
  }

  /**
   * The faces of one model: each face not excluded is routed by its texture name to the
   * sky buffer, recording its texture as the sky texture, or to the main buffer.
   */
  method EmitModel(b: BspFile, m: Model, rects: seq<Rect>, lights: map<i32, Rect>, sky: Option<i32>)
    returns (verts: seq<Vertex>, vertsSky: seq<Vertex>, sky': Option<i32>)
    requires ModelFits(b, m) && RunReady(b, ModelFaces(b, m), rects, lights)
    ensures verts == RunVerts(b, m, ModelFaces(b, m), rects, lights, false)
    ensures vertsSky == RunVerts(b, m, ModelFaces(b, m), rects, lights, true)
    ensures sky' == RunSky(b, ModelFaces(b, m), sky)
  {
    var fs := ModelFaces(b, m);
    verts, vertsSky, sky' := [], [], sky;
    for k := 0 to |fs|
      invariant verts == RunVerts(b, m, fs[..k], rects, lights, false)
      invariant vertsSky == RunVerts(b, m, fs[..k], rects, lights, true)
      invariant sky' == RunSky(b, fs[..k], sky)
    {
      var face := fs[k];
      LemmaRunStep(b, m, fs, k, rects, lights, sky);
      var tex := TextureOf(b, face);
      if tex.id == -1 || tex.name == TRIGGER {
        continue;
      }
      var vs := EmitFace(b, m, face, rects, lights);
      if |tex.name| >= 3 && tex.name[..3] == SKY {
        sky' := Some(tex.id);
        vertsSky := vertsSky + vs;
      } else {
        verts := verts + vs;
      }
    }
    assert fs[..|fs|] == fs;
  }

  /** The emission loop over every model of the level. */
  method EmitGeometry(b: BspFile, rects: seq<Rect>, lights: map<i32, Rect>)
    returns (verts: seq<Vertex>, vertsSky: seq<Vertex>, sky: Option<i32>)
    requires GeometryReady(b, rects, lights)
    ensures verts == ModelsVerts(b, rects, lights, |b.models|, false)
    ensures vertsSky == ModelsVerts(b, rects, lights, |b.models|, true)
    ensures sky == ModelsSky(b, |b.models|)
  {
    verts, vertsSky, sky := [], [], None;
    for i := 0 to |b.models|
      invariant verts == ModelsVerts(b, rects, lights, i, false)
      invariant vertsSky == ModelsVerts(b, rects, lights, i, true)
      invariant sky == ModelsSky(b, i)
    {
      var m := b.models[i];
      assert ModelFits(b, m);
      assert RunReady(b, ModelFaces(b, m), rects, lights);
      var mv, mvSky;
      mv, mvSky, sky := EmitModel(b, m, rects, lights, sky);
      verts, vertsSky := verts + mv, vertsSky + mvSky;
    }
  }

  /** After a run the sky texture is unset exactly when it was unset before and no face of the run is a sky face. */
  lemma {:induction false} LemmaRunSkyNone(b: BspFile, fs: seq<Face>, prior: Option<i32>)
    requires forall k :: 0 <= k < |fs| ==> FaceFits(b, fs[k])
    ensures RunSky(b, fs, prior).None? <==> prior.None? && NoSkyFace(b, fs)
  {
    if |fs| > 0 {
      var init := fs[..|fs| - 1];
      LemmaRunSkyNone(b, init, prior);
      assert forall k :: 0 <= k < |init| ==> init[k] == fs[k];
    }
  }

  /** Model `i` has a face drawn into the sky buffer. */
  predicate ModelHasSky(b: BspFile, i: nat)
    requires LevelFits(b) && i < |b.models|
  {
    !NoSkyFace(b, ModelFaces(b, b.models[i]))
  }

  /** If `sky_texture` is still `None` after `n` models, none of them has a sky face. */
  lemma {:induction false} LemmaModelsSkyNoneOnly(b: BspFile, n: nat)
    requires LevelFits(b) && n <= |b.models| && ModelsSky(b, n).None?
    ensures forall i :: 0 <= i < n ==> !ModelHasSky(b, i)
  {
    if n > 0 {
      var fs := ModelFaces(b, b.models[n - 1]);
      var prior := ModelsSky(b, n - 1);
      LemmaRunSkyNone(b, fs, prior);
      assert RunSky(b, fs, prior).None?;
      LemmaModelsSkyNoneOnly(b, n - 1);
      assert !ModelHasSky(b, n - 1);
    }
  }

  /** If none of the first `n` models has a sky face, `sky_texture` is still `None` after them. */
  lemma {:induction false} LemmaModelsSkyNoneIf(b: BspFile, n: nat)
    requires LevelFits(b) && n <= |b.models|
    requires forall i :: 0 <= i < n ==> !ModelHasSky(b, i)
    ensures ModelsSky(b, n).None?
  {
    if n > 0 {
      var fs := ModelFaces(b, b.models[n - 1]);
      LemmaModelsSkyNoneIf(b, n - 1);
      assert !ModelHasSky(b, n - 1);
      LemmaRunSkyNone(b, fs, ModelsSky(b, n - 1));
    }
  }

  /** `sky_texture` stays `None`, and no sky box is built, exactly when no model has a sky face. */
  lemma LemmaModelsSkyNone(b: BspFile, n: nat)
    requires LevelFits(b) && n <= |b.models|
    ensures ModelsSky(b, n).None? <==> forall i :: 0 <= i < n ==> !ModelHasSky(b, i)
  {
    if ModelsSky(b, n).None? {
      LemmaModelsSkyNoneOnly(b, n);
    } else if forall i :: 0 <= i < n ==> !ModelHasSky(b, i) {
      LemmaModelsSkyNoneIf(b, n);
    }
  }



  // ---------------------------------------------------------------------------------------
  // The sky box
  // ---------------------------------------------------------------------------------------

  /** The corners of one sky-box layer, as two triangles: (min, min), (min, max), (max, min), then (min, max), (max, max), (max, min). */
  const SKY_CORNERS: seq<(bool, bool)> := [(false, false), (false, true), (true, false), (false, true), (true, true), (true, false)]

  /** `(tex.width / 2) as u16`: half the sky texture's width, truncated toward zero, in sixteen bits. */
  function HalfWidth(tex: Rect): u16
  {
    U16Of(TruncDiv(tex.width, 2))
  }

  /** A sky-box vertex: corner `c` of layer `z` over the sky texture's area `tex`. */
  function SkyVertex(tex: Rect, z: nat, c: (bool, bool)): Vertex
    requires z < 2
  {
    Vertex(SkyCorner(c.0, c.1, z), ((U16Of(tex.x) + HalfWidth(tex) * z) % 0x1_0000, U16Of(tex.y)), Flat,
           (AsI16(HalfWidth(tex)), AsI16(tex.height)), Origin, 0, z)
  }

  /** One sky-box layer: corner after corner of `SKY_CORNERS`. */
  function SkyLayer(tex: Rect, z: nat): seq<Vertex>
    requires z < 2
  {
    seq(6, c requires 0 <= c < 6 => SkyVertex(tex, z, SKY_CORNERS[c]))
  }

  /** The twelve sky-box vertices: the layer below, then the layer 100 units above it. */
  function SkyBox(tex: Rect): seq<Vertex>
  {
    SkyLayer(tex, 0) + SkyLayer(tex, 1)
  }

  /** `gen_sky_box`: six pushes per layer, for layers 0 and 1. */
  method GenSkyBox(textures: seq<Rect>, tex: i32) returns (verts: seq<Vertex>)
    requires 0 <= tex < |textures|
    ensures verts == SkyBox(textures[tex])
  {
    var t := textures[tex];
    verts := [];
    var width := U16Of(TruncDiv(t.width, 2));
    for z := 0 to 2
      invariant verts == SkyBox(t)[..6 * z]
    {
      var v := Vertex(SkyCorner(false, false, z), ((U16Of(t.x) + width * z) % 0x1_0000, U16Of(t.y)), Flat,
                      (AsI16(width), AsI16(t.height)), Origin, 0, z);
      var corners := [v, v.(position := SkyCorner(false, true, z)), v.(position := SkyCorner(true, false, z)),
                      v.(position := SkyCorner(false, true, z)), v.(position := SkyCorner(true, true, z)),
                      v.(position := SkyCorner(true, false, z))];
      assert forall c :: 0 <= c < 6 ==> corners[c] == SkyBox(t)[6 * z + c];
      verts := verts + corners;
    }
  }

  /**
   * The layout of a sky-box layer: two triangles sharing the diagonal from (min, max) to
   * (max, min) and reaching all four corners between them.
   */
  lemma LemmaSkyLayerLayout(tex: Rect, z: nat)
    requires z < 2
    ensures |SkyLayer(tex, z)| == 6
    ensures forall c :: 0 <= c < 6 ==> SkyLayer(tex, z)[c].position == SkyCorner(SKY_CORNERS[c].0, SKY_CORNERS[c].1, z)
    ensures SkyLayer(tex, z)[1].position == SkyLayer(tex, z)[3].position == SkyCorner(false, true, z)
    ensures SkyLayer(tex, z)[2].position == SkyLayer(tex, z)[5].position == SkyCorner(true, false, z)
    ensures forall mx: bool, my: bool :: exists c :: 0 <= c < 6 && SkyLayer(tex, z)[c].position == SkyCorner(mx, my, z)
  {
    forall mx: bool, my: bool
      ensures exists c :: 0 <= c < 6 && SkyLayer(tex, z)[c].position == SkyCorner(mx, my, z)
    {
      var c := if !mx && !my then 0 else if !mx then 1 else if !my then 2 else 4;
      assert SkyLayer(tex, z)[c].position == SkyCorner(mx, my, z);
    }
  }

  /**
   * Every vertex of a sky-box layer carries no surface projection and no light, its layer as
   * light type, half the sky texture's width and its height; the upper layer samples the
   * second half of the texture.
   */
  lemma LemmaSkyLayerFields(tex: Rect, z: nat)
    requires z < 2
    ensures |SkyLayer(tex, z)| == 6
    ensures forall c :: 0 <= c < 6 ==>
              SkyLayer(tex, z)[c].surface == Flat && SkyLayer(tex, z)[c].lightInfo == Origin &&
              SkyLayer(tex, z)[c].light == 0 && SkyLayer(tex, z)[c].lightType == z &&
              SkyLayer(tex, z)[c].size == (AsI16(HalfWidth(tex)), AsI16(tex.height)) &&
              SkyLayer(tex, z)[c].tex == (if z == 0 then U16Of(tex.x) else (U16Of(tex.x) + HalfWidth(tex)) % 0x1_0000, U16Of(tex.y))
  {
    forall c | 0 <= c < 6
      ensures SkyLayer(tex, z)[c] == SkyVertex(tex, z, SKY_CORNERS[c])
    {
    }
  }

  /** The sky box is twelve vertices: the lower layer, then the upper. */
  lemma LemmaSkyBox(tex: Rect)
    ensures |SkyBox(tex)| == 12
    ensures SkyBox(tex)[..6] == SkyLayer(tex, 0) && SkyBox(tex)[6..] == SkyLayer(tex, 1)
  {
  }

  // ---------------------------------------------------------------------------------------
  // QMap::new

  /** The atlas area nobody asked for: `Rect::default()`. */
  const DEFAULT_RECT: Rect := Rect(0, 0, 0, 0)

  /** Texture `k` shows at its recorded area with its own size, or is a placeholder left at the default. */
  predicate TexturePlaced(ts: seq<Texture>, rects: seq<Rect>, data: seq<seq<byte>>, k: nat)
    requires |rects| == |ts| && |data| == 3 && k < |ts|
  {
    if ts[k].id == -1 then rects[k] == DEFAULT_RECT
    else rects[k].width == ts[k].width && rects[k].height == ts[k].height && ShownAt(data, rects[k], ts[k])
  }

  /** The entry of every present texture is in the packing order; no placeholder's is. */
  lemma {:induction false} LemmaOrderCoversTextures(ts: seq<Texture>, order: seq<Sortable>, k: nat)
    requires Indexed(ts) && k < |ts| && multiset(order) == multiset(Selected(ts))
    requires forall j :: 0 <= j < |order| ==> EntryOf(ts, order[j])
    ensures ts[k].id != -1 <==> exists j :: 0 <= j < |order| && order[j].idx == k
  {
    if ts[k].id != -1 {
      LemmaSelectedComplete(ts);
      var e := Sortable(ts[k].id, ts[k].width, ts[k].height);
      assert e in multiset(order);
      var j :| 0 <= j < |order| && order[j] == e;
    }
  }

  /** `vec![Rect::default(); n]`. */
  method NewRects(n: nat) returns (rects: array<Rect>)
    ensures fresh(rects) && rects.Length == n && forall k :: 0 <= k < n ==> rects[k] == DEFAULT_RECT
  {
    rects := new Rect[n](_ => DEFAULT_RECT);
  }

  /** `texture_data`: three zeroed buffers, one per mip level. */
  method NewLevels() returns (levels: seq<array<byte>>)
    ensures LevelsShape(levels) && fresh(levels[0]) && fresh(levels[1]) && fresh(levels[2])
    ensures forall m, i :: 0 <= m < 3 && 0 <= i < levels[m].Length ==> levels[m][i] == 0
  {
    var l0 := new byte[MipSide(0) * MipSide(0)](_ => 0);
    var l1 := new byte[MipSide(1) * MipSide(1)](_ => 0);
    var l2 := new byte[MipSide(2) * MipSide(2)](_ => 0);
    levels := [l0, l1, l2];
  }

  /** `t_list` after sorting: the present textures' entries, each once. */
  lemma {:induction false} LemmaTextureOrder(ts: seq<Texture>)
    requires Indexed(ts)
    ensures multiset(SortByArea(Selected(ts))) == multiset(Selected(ts)) && DistinctIdx(SortByArea(Selected(ts)))
    ensures forall j :: 0 <= j < |SortByArea(Selected(ts))| ==> EntryOf(ts, SortByArea(Selected(ts))[j])
  {
    var list := Selected(ts);
    var order := SortByArea(list);
    LemmaSelectedSound(ts);
    LemmaSortByArea(list);
    LemmaSortDistinct(list);
    forall j | 0 <= j < |order|
      ensures EntryOf(ts, order[j])
    {
      assert order[j] in multiset(list);
    }
  }

  /** The texture loop's run: the present textures, largest first, into an empty unpadded atlas. */
  function TextureRun(ts: seq<Texture>): Option<(seq<Rect>, seq<Rect>)>
  {
    PackRun([Rect(0, 0, ATLAS_SIZE, ATLAS_SIZE)], 0, SizesOf(SortByArea(Selected(ts))))
  }

  /** The run succeeds and the `j`-th texture in packing order got the run's `j`-th placement. */
  predicate TexturesAsRun(ts: seq<Texture>, rects: seq<Rect>)
  {
    var order := SortByArea(Selected(ts));
    var run := TextureRun(ts);
    run.Some? &&
    forall j :: 0 <= j < |order| ==> 0 <= order[j].idx < |rects| && rects[order[j].idx] == run.value.1[j]
  }

  /**
   * The texture half of `QMap::new`: the present textures, sorted by area, each get their
   * own area of the unpadded atlas and show there in all three mip levels; placeholders keep
   * the default area, and no two present textures share an atlas cell. `ok` is false when the
   * atlas is full (the `unwrap` that panics).
   */
  method BakeTextures(ts: seq<Texture>) returns (ok: bool, rects: seq<Rect>, data: seq<seq<byte>>)
    requires TexturesFit(ts)
    ensures (ok <==> TextureRun(ts).Some?) && (ok ==> TexturesAsRun(ts, rects))
    ensures ok ==> |rects| == |ts| && |data| == 3 && forall m :: 0 <= m < 3 ==> |data[m]| == MipSide(m) * MipSide(m)
    ensures ok ==> forall k :: 0 <= k < |ts| ==> TexturePlaced(ts, rects, data, k)
    ensures ok ==> forall k, k' :: 0 <= k < k' < |ts| && ts[k].id != -1 && ts[k'].id != -1 ==> Disjoint(rects[k], rects[k'])
  {
    var order := SortByArea(Selected(ts));
    LemmaTextureOrder(ts);
    ghost var placed;
    ok, rects, data, placed := PackIntoNewAtlas(ts, order);
    if !ok {
      return;
    }
    LemmaTexturesPlaced(ts, order, rects, data, placed);
  }

  /** The texture loop run on a fresh atlas, fresh default rectangles and fresh zeroed mip levels. */
  method PackIntoNewAtlas(ts: seq<Texture>, order: seq<Sortable>)
    returns (ok: bool, rects: seq<Rect>, data: seq<seq<byte>>, ghost placed: seq<Rect>)
    requires TexturesFit(ts) && DistinctIdx(order) && forall j :: 0 <= j < |order| ==> EntryOf(ts, order[j])
    ensures |rects| == |ts| && |data| == 3 && forall m :: 0 <= m < 3 ==> |data[m]| == MipSide(m) * MipSide(m)
    ensures var run := PackRun([Rect(0, 0, ATLAS_SIZE, ATLAS_SIZE)], 0, SizesOf(order));
            (ok <==> run.Some?) && (ok ==> placed == run.value.1)
    ensures ok ==> |placed| == |order| && PairwiseDisjoint(placed)
    ensures ok ==> forall j :: 0 <= j < |order| ==> Packed(data, rects, placed[j], ts, order[j])
    ensures ok ==> forall k :: 0 <= k < |ts| && (forall j :: 0 <= j < |order| ==> order[j].idx != k) ==> rects[k] == DEFAULT_RECT
  {
    var atlas := new TextureAtlas(ATLAS_SIZE, ATLAS_SIZE);
    var rs := NewRects(|ts|);
    var levels := NewLevels();
    ok := PackTextures(atlas, ts, order, rs, levels);
    rects, data, placed := rs[..], Contents(levels), atlas.placed;
  }

  /** What the texture loop leaves behind, read per directory slot. */
  lemma {:induction false} LemmaTexturesPlaced(ts: seq<Texture>, order: seq<Sortable>, rects: seq<Rect>, data: seq<seq<byte>>, placed: seq<Rect>)
    requires Indexed(ts) && multiset(order) == multiset(Selected(ts)) && |rects| == |ts| && |data| == 3
    requires forall j :: 0 <= j < |order| ==> EntryOf(ts, order[j])
    requires |placed| == |order| && PairwiseDisjoint(placed)
    requires forall j :: 0 <= j < |order| ==> Packed(data, rects, placed[j], ts, order[j])
    requires forall k :: 0 <= k < |ts| && (forall j :: 0 <= j < |order| ==> order[j].idx != k) ==> rects[k] == DEFAULT_RECT
    ensures forall k :: 0 <= k < |ts| ==> TexturePlaced(ts, rects, data, k)
    ensures forall k, k' :: 0 <= k < k' < |ts| && ts[k].id != -1 && ts[k'].id != -1 ==> Disjoint(rects[k], rects[k'])
  {
    forall k | 0 <= k < |ts|
      ensures TexturePlaced(ts, rects, data, k)
      ensures ts[k].id != -1 ==> exists j :: 0 <= j < |order| && order[j].idx == k && rects[k] == placed[j]
    {
      LemmaOrderCoversTextures(ts, order, k);
      if ts[k].id != -1 {
        var j :| 0 <= j < |order| && order[j].idx == k;
        assert Packed(data, rects, placed[j], ts, order[j]);
      }
    }
    forall k, k' | 0 <= k < k' < |ts| && ts[k].id != -1 && ts[k'].id != -1
      ensures Disjoint(rects[k], rects[k'])
    {
      var j :| 0 <= j < |order| && order[j].idx == k && rects[k] == placed[j];
      var j' :| 0 <= j' < |order| && order[j'].idx == k' && rects[k'] == placed[j'];
      if j < j' {
        assert Disjoint(placed[j], placed[j']);
      } else {
        assert Disjoint(placed[j'], placed[j]);
      }
    }
  }

  /** Every light-map entry the sizing loop pushes names light-map bytes that are present. */
  predicate LightsFit(b: BspFile, extent: Face -> (u32, u32))
    requires LevelFits(b)
  {
    forall e :: e in ModelsLightEntries(b, extent, |b.models|) ==> TileSourceFits(e, |b.lightMaps|)
  }

  /** Some drawn, lit face of a model has its light map at offset `o`. */
  predicate LitOffset(b: BspFile, o: i32)
    requires LevelFits(b)
  {
    exists i, k :: 0 <= i < |b.models| && 0 <= k < |ModelFaces(b, b.models[i])| &&
      Lit(b, ModelFaces(b, b.models[i])[k]) && ModelFaces(b, b.models[i])[k].lightMap == o
  }

  /** The offsets of the sizing loop's entries are those of the level's lit faces. */
  lemma {:induction false} LemmaEntryOffsets(b: BspFile, extent: Face -> (u32, u32), o: i32)
    requires LevelFits(b)
    ensures (exists e :: e in ModelsLightEntries(b, extent, |b.models|) && e.idx == o) <==> LitOffset(b, o)
  {
    LemmaModelsLightEntries(b, extent, |b.models|);
    if LitOffset(b, o) {
      var i, k :| 0 <= i < |b.models| && 0 <= k < |ModelFaces(b, b.models[i])| &&
        Lit(b, ModelFaces(b, b.models[i])[k]) && ModelFaces(b, b.models[i])[k].lightMap == o;
      assert LightEntry(ModelFaces(b, b.models[i])[k], extent) in ModelsLightEntries(b, extent, |b.models|);
    }
  }

  /** The light-map loop's pairs, each the tile found for the entry at the same place of the order. */
  predicate TilesFor(b: BspFile, order: seq<Sortable>, tiles: seq<(i32, Rect)>, placed: seq<Rect>, data: seq<byte>)
  {
    |tiles| == |order| && |placed| == |order| &&
    forall j :: 0 <= j < |order| ==>
      tiles[j].0 == order[j].idx && placed[j] == Border(tiles[j].1) &&
      TileSourceFits(order[j], |b.lightMaps|) && ShowsTile(data, tiles[j].1, b.lightMaps, order[j])
  }

  /** The lookup map's keys are the offsets of the level's lit faces. */
  lemma {:induction false} LemmaLightKeys(b: BspFile, extent: Face -> (u32, u32), order: seq<Sortable>, tiles: seq<(i32, Rect)>, placed: seq<Rect>, data: seq<byte>)
    requires LevelFits(b) && multiset(order) == multiset(ModelsLightEntries(b, extent, |b.models|))
    requires TilesFor(b, order, tiles, placed, data)
    ensures forall o :: o in ToMap(tiles) <==> LitOffset(b, o)
  {
    var entries, lights := ModelsLightEntries(b, extent, |b.models|), ToMap(tiles);
    LemmaToMap(tiles);
    forall o
      ensures o in lights <==> LitOffset(b, o)
    {
      LemmaEntryOffsets(b, extent, o);
      if o in lights {
        var j :| 0 <= j < |tiles| && tiles[j].0 == o;
        assert order[j] in multiset(entries);
      }
      if LitOffset(b, o) {
        var e :| e in entries && e.idx == o;
        assert e in multiset(order);
        var j :| 0 <= j < |order| && order[j] == e;
        assert tiles[j].0 == o;
      }
    }
  }

  /** Each key's tile shows a light map stored at that offset. */
  lemma {:induction false} LemmaLightValues(b: BspFile, extent: Face -> (u32, u32), order: seq<Sortable>, tiles: seq<(i32, Rect)>, placed: seq<Rect>, data: seq<byte>)
    requires LevelFits(b) && multiset(order) == multiset(ModelsLightEntries(b, extent, |b.models|))
    requires TilesFor(b, order, tiles, placed, data)
    ensures forall o :: o in ToMap(tiles) ==>
              exists e :: e in ModelsLightEntries(b, extent, |b.models|) && e.idx == o &&
                TileSourceFits(e, |b.lightMaps|) && ShowsTile(data, ToMap(tiles)[o], b.lightMaps, e)
  {
    var entries, lights := ModelsLightEntries(b, extent, |b.models|), ToMap(tiles);
    LemmaToMap(tiles);
    forall o | o in lights
      ensures exists e :: e in entries && e.idx == o && TileSourceFits(e, |b.lightMaps|) && ShowsTile(data, lights[o], b.lightMaps, e)
    {
      var j :| 0 <= j < |tiles| && tiles[j] == (o, lights[o]) && forall j' :: j < j' < |tiles| ==> tiles[j'].0 != o;
      assert order[j] in multiset(entries);
    }
  }

  /** The pair a key's value comes from. */
  lemma {:induction false} LemmaPairOf(tiles: seq<(i32, Rect)>, o: i32) returns (j: nat)
    requires o in ToMap(tiles)
    ensures j < |tiles| && tiles[j] == (o, ToMap(tiles)[o])
  {
    LemmaToMap(tiles);
    j :| 0 <= j < |tiles| && tiles[j] == (o, ToMap(tiles)[o]) && forall j' :: j < j' < |tiles| ==> tiles[j'].0 != o;
  }

  /** The tiles of two distinct keys, borders included, share no cell. */
  lemma {:induction false} LemmaTwoTilesApart(tiles: seq<(i32, Rect)>, placed: seq<Rect>, o: i32, o': i32)
    requires |tiles| == |placed| && PairwiseDisjoint(placed)
    requires forall j :: 0 <= j < |tiles| ==> placed[j] == Border(tiles[j].1)
    requires o in ToMap(tiles) && o' in ToMap(tiles) && o != o'
    ensures Disjoint(Border(ToMap(tiles)[o]), Border(ToMap(tiles)[o']))
  {
    var j := LemmaPairOf(tiles, o);
    var j' := LemmaPairOf(tiles, o');
    if j < j' {
      assert Disjoint(placed[j], placed[j']);
    } else {
      assert Disjoint(placed[j'], placed[j]);
    }
  }

  /** Tiles of distinct keys, borders included, share no cell. */
  lemma {:induction false} LemmaLightsApart(tiles: seq<(i32, Rect)>, placed: seq<Rect>)
    requires |tiles| == |placed| && PairwiseDisjoint(placed)
    requires forall j :: 0 <= j < |tiles| ==> placed[j] == Border(tiles[j].1)
    ensures forall o, o' :: o in ToMap(tiles) && o' in ToMap(tiles) && o != o' ==>
              Disjoint(Border(ToMap(tiles)[o]), Border(ToMap(tiles)[o']))
  {
    forall o, o' | o in ToMap(tiles) && o' in ToMap(tiles) && o != o'
      ensures Disjoint(Border(ToMap(tiles)[o]), Border(ToMap(tiles)[o']))
    {
      LemmaTwoTilesApart(tiles, placed, o, o');
    }
  }

  /** The sorted light list names present light-map bytes. */
  lemma {:induction false} LemmaLightOrder(b: BspFile, extent: Face -> (u32, u32))
    requires LevelFits(b) && LightsFit(b, extent)
    ensures multiset(SortByArea(ModelsLightEntries(b, extent, |b.models|))) == multiset(ModelsLightEntries(b, extent, |b.models|))
    ensures forall j :: 0 <= j < |SortByArea(ModelsLightEntries(b, extent, |b.models|))| ==>
              TileSourceFits(SortByArea(ModelsLightEntries(b, extent, |b.models|))[j], |b.lightMaps|)
  {
    var entries := ModelsLightEntries(b, extent, |b.models|);
    LemmaSortByArea(entries);
    forall j | 0 <= j < |SortByArea(entries)|
      ensures TileSourceFits(SortByArea(entries)[j], |b.lightMaps|)
    {
      assert SortByArea(entries)[j] in multiset(entries);
    }
  }

  /** The light-map loop's run: the lit faces' tiles, largest first, into an empty atlas padded by one texel. */
  function LightRun(b: BspFile, extent: Face -> (u32, u32)): Option<(seq<Rect>, seq<Rect>)>
    requires LevelFits(b)
  {
    PackRun([Rect(0, 0, ATLAS_SIZE, ATLAS_SIZE)], 1, SizesOf(SortByArea(ModelsLightEntries(b, extent, |b.models|))))
  }

  /**
   * The run succeeds and the lookup map is its `(offset, tile)` pairs collected in packing
   * order, so an offset shared by several faces keeps the tile of the last of them.
   */
  predicate LightsAsRun(b: BspFile, extent: Face -> (u32, u32), lights: map<i32, Rect>)
    requires LevelFits(b)
  {
    var run := LightRun(b, extent);
    run.Some? && lights == ToMap(LightPairs(SortByArea(ModelsLightEntries(b, extent, |b.models|)), run.value.1))
  }

  /**
   * With several lit faces sharing a light-map offset, the map keeps the tile of the last of
   * them in packing order: the area inside that entry's placement.
   */
  lemma LemmaLastEntryWins(b: BspFile, extent: Face -> (u32, u32), lights: map<i32, Rect>, o: i32)
    requires LevelFits(b) && LightsAsRun(b, extent, lights) && o in lights
    ensures var order := SortByArea(ModelsLightEntries(b, extent, |b.models|));
            exists j :: 0 <= j < |order| && order[j].idx == o && lights[o] == Inner(LightRun(b, extent).value.1[j], 1) &&
              forall j' :: j < j' < |order| ==> order[j'].idx != o
  {
    var order := SortByArea(ModelsLightEntries(b, extent, |b.models|));
    var pairs := LightPairs(order, LightRun(b, extent).value.1);
    LemmaToMap(pairs);
    var j :| 0 <= j < |pairs| && pairs[j] == (o, ToMap(pairs)[o]) && forall j' :: j < j' < |pairs| ==> pairs[j'].0 != o;
    forall j' | j < j' < |order|
      ensures order[j'].idx != o
    {
      assert pairs[j'].0 == order[j'].idx;
    }
  }

  /**
   * The light-map half of `QMap::new`: every lit face's light map gets a tile in the padded
   * atlas, the lookup map holds exactly the offsets of lit faces, each mapped to a tile that
   * shows a light map stored at that offset, border included, and no two tiles' borders share
   * a cell. `ok` is false when the atlas is full (the `unwrap` that panics).
   */
  method BakeLights(b: BspFile, extent: Face -> (u32, u32)) returns (ok: bool, lights: map<i32, Rect>, data: seq<byte>)
    requires LevelFits(b) && LightsFit(b, extent)
    ensures (ok <==> LightRun(b, extent).Some?) && (ok ==> LightsAsRun(b, extent, lights))
    ensures ok ==> |data| == ATLAS_SIZE * ATLAS_SIZE
    ensures ok ==> forall o :: o in lights <==> LitOffset(b, o)
    ensures ok ==> forall o :: o in lights ==>
              exists e :: e in ModelsLightEntries(b, extent, |b.models|) && e.idx == o &&
                TileSourceFits(e, |b.lightMaps|) && ShowsTile(data, lights[o], b.lightMaps, e)
    ensures ok ==> forall o, o' :: o in lights && o' in lights && o != o' ==> Disjoint(Border(lights[o]), Border(lights[o']))
  {
    var entries := SizeLights(b, extent);
    var order := SortByArea(entries);
    LemmaLightOrder(b, extent);
    var atlas := new TextureAtlas.Padded(ATLAS_SIZE, ATLAS_SIZE, 1);
    var target := new byte[ATLAS_SIZE * ATLAS_SIZE](_ => 0);
    var tiles;
    ok, tiles := PackLights(atlas, b.lightMaps, order, target);
    lights, data := ToMap(tiles), target[..];
    if !ok {
      return;
    }
    assert TilesFor(b, order, tiles, atlas.placed, data);
    LemmaLightKeys(b, extent, order, tiles, atlas.placed, data);
    LemmaLightValues(b, extent, order, tiles, atlas.placed, data);
    LemmaLightsApart(tiles, atlas.placed);
  }

  /**
   * A face that looks a tile up is one the sizing loop gave a tile: its light type, after
   * the full-bright override, is not `0xFF`, so the face's own is not either.
   */
  lemma {:induction false} LemmaTilesCover(b: BspFile, lights: map<i32, Rect>)
    requires LevelFits(b) && forall o :: LitOffset(b, o) ==> o in lights
    ensures TilesCover(b, lights)
  {
    forall i, k | 0 <= i < |b.models| && 0 <= k < |ModelFaces(b, b.models[i])|
      ensures FaceReady(b, ModelFaces(b, b.models[i])[k], lights)
    {
      var f := ModelFaces(b, b.models[i])[k];
      if !Excluded(TextureOf(b, f)) && NeedsTile(b, f) {
        assert Lit(b, f);
        assert LitOffset(b, f.lightMap);
      }
    }
  }

  /** The sky texture, when set, names a slot of the directory. */
  lemma {:induction false} LemmaRunSkyIndex(b: BspFile, fs: seq<Face>, prior: Option<i32>)
    requires Indexed(b.textures) && forall k :: 0 <= k < |fs| ==> FaceFits(b, fs[k])
    requires prior.Some? ==> 0 <= prior.value < |b.textures|
    ensures RunSky(b, fs, prior).Some? ==> 0 <= RunSky(b, fs, prior).value < |b.textures|
  {
    if |fs| > 0 {
      LemmaRunSkyIndex(b, fs[..|fs| - 1], prior);
    }
  }

  lemma {:induction false} LemmaModelsSkyIndex(b: BspFile, n: nat)
    requires LevelFits(b) && n <= |b.models|
    ensures ModelsSky(b, n).Some? ==> 0 <= ModelsSky(b, n).value < |b.textures|
  {
    if n > 0 {
      LemmaModelsSkyIndex(b, n - 1);
      LemmaRunSkyIndex(b, ModelFaces(b, b.models[n - 1]), ModelsSky(b, n - 1));
    }
  }

  /** What `QMap::new` computes before handing it to the graphics device. */
  datatype Baked = Baked(
    textures: seq<Rect>, textureData: seq<seq<byte>>, lights: map<i32, Rect>, lightData: seq<byte>,
    verts: seq<Vertex>, vertsSky: seq<Vertex>, skyBox: seq<Vertex>)

  /** The sky box `QMap::new` builds: none without a sky texture, else the box over its area. */
  function SkyBoxOf(sky: Option<i32>, rects: seq<Rect>): seq<Vertex>
    requires sky.Some? ==> 0 <= sky.value < |rects|
  {
    if sky.None? then [] else SkyBox(rects[sky.value])
  }

  /**
   * `QMap::new`: pack the textures and the light maps, then emit the geometry. A full atlas
   * panics; otherwise every texture and every lit face's light map shows in its own area,
   * the vertex buffers hold the triangles of the faces drawn into them, and the sky box is
   * built over the last sky texture, when there is one.
   */
  method Bake(b: BspFile, extent: Face -> (u32, u32)) returns (r: Result<Baked>)
    requires LevelFits(b) && LightsFit(b, extent)
    ensures r.Err? ==> r.error == Panic
    ensures r.Ok? <==> TextureRun(b.textures).Some? && LightRun(b, extent).Some?
    ensures r.Ok? ==> TexturesAsRun(b.textures, r.value.textures) && LightsAsRun(b, extent, r.value.lights)
    ensures r.Ok? ==>
              |r.value.textures| == |b.textures| && |r.value.textureData| == 3 &&
              forall k :: 0 <= k < |b.textures| ==> TexturePlaced(b.textures, r.value.textures, r.value.textureData, k)
    ensures r.Ok? ==> |r.value.lightData| == ATLAS_SIZE * ATLAS_SIZE && forall o :: o in r.value.lights <==> LitOffset(b, o)
    ensures r.Ok? ==> forall o :: o in r.value.lights ==>
              exists e :: e in ModelsLightEntries(b, extent, |b.models|) && e.idx == o &&
                TileSourceFits(e, |b.lightMaps|) && ShowsTile(r.value.lightData, r.value.lights[o], b.lightMaps, e)
    ensures r.Ok? ==>
              GeometryReady(b, r.value.textures, r.value.lights) &&
              r.value.verts == ModelsVerts(b, r.value.textures, r.value.lights, |b.models|, false) &&
              r.value.vertsSky == ModelsVerts(b, r.value.textures, r.value.lights, |b.models|, true)
    ensures r.Ok? ==>
              (ModelsSky(b, |b.models|).Some? ==> 0 <= ModelsSky(b, |b.models|).value < |b.textures|) &&
              r.value.skyBox == SkyBoxOf(ModelsSky(b, |b.models|), r.value.textures)
  {
    var okT, rects, textureData := BakeTextures(b.textures);
    if !okT {
      return Err(Panic);
    }
    var okL, lights, lightData := BakeLights(b, extent);
    if !okL {
      return Err(Panic);
    }
    LemmaTilesCover(b, lights);
    var verts, vertsSky, sky := EmitGeometry(b, rects, lights);
    LemmaModelsSkyIndex(b, |b.models|);
    var skyBox := [];
    if sky.Some? {
      skyBox := GenSkyBox(rects, sky.value);
    }
    r := Ok(Baked(rects, textureData, lights, lightData, verts, vertsSky, skyBox));
  }
}
