/**
 * The device-memory allocator of src/render/alloc.rs.
 *
 * `ChunkAlloc` splits a region into 8 KiB chunks, keeps one used bit per chunk and one type
 * tag (`Option<Type>`) per buffer/image granularity unit, and hands out chunk-aligned byte
 * ranges. `GPUMemory` keeps the regions of one memory type and `GPUAlloc` the memories of
 * every type in use; both route a request to the first place that accepts it and otherwise
 * grow by one.
 *
 * A Rust panic (an index out of bounds, a failed `unwrap` or `expect`) is the outcome
 * `Panicked`; the state it leaves behind is not modelled, as the program aborts.
 */
module Alloc {
  import opened Common

  const CHUNK_SIZE: nat := 8 * 1024
  /** The size of every region `GPUMemory` asks the device for. */
  const REGION_SIZE: nat := 64 * 1024 * 1024

  datatype Type = Buffer | Image

  datatype Outcome<T> = Done(value: T) | Panicked

  /** A `Range<u64>` of bytes: `start..end`. */
  datatype Span = Span(start: nat, end: nat)

  /** How many chunks `size` bytes need, rounding up. */
  function ChunksFor(size: nat): nat
  {
    (size + (CHUNK_SIZE - 1)) / CHUNK_SIZE
  }

  /** How many chunks one granularity unit spans, rounding up. */
  function Skip(g: nat): nat
  {
    (g + (CHUNK_SIZE - 1)) / CHUNK_SIZE
  }

  /** The granularity unit the first byte of `chunk` falls in. */
  function TagOf(chunk: nat, g: nat): nat
    requires g > 0
  {
    chunk * CHUNK_SIZE / g
  }

  /** A unit tagged with the other type. */
  predicate Conflicts(tag: Option<Type>, ty: Type)
  {
    tag != None && tag != Some(ty)
  }

  /** The state of one `ChunkAlloc`: the used bits, the type tags and the granularity. */
  datatype Chunks = Chunks(used: seq<bool>, types: seq<Option<Type>>, g: nat)

  // ---------------------------------------------------------------------------------------
  // Specification of the search

  /** What checking chunks `start + off` to `start + n - 1` in order meets first. */
  datatype Run = AllFree | UsedChunk | PastEnd

  function RunFrom(used: seq<bool>, start: nat, n: nat, off: nat): Run
    decreases n - off
  {
    if off >= n then AllFree
    else if start + off >= |used| then PastEnd
    else if used[start + off] then UsedChunk
    else RunFrom(used, start, n, off + 1)
  }

  lemma {:induction false} LemmaRunFree(used: seq<bool>, start: nat, n: nat, off: nat)
    requires RunFrom(used, start, n, off) == AllFree
    ensures off < n ==> start + n <= |used|
    ensures forall p :: start + off <= p < start + n ==> p < |used| && !used[p]
    decreases n - off
  {
    if off < n {
      assert start + off < |used| && !used[start + off];
      assert RunFrom(used, start, n, off + 1) == AllFree;
      LemmaRunFree(used, start, n, off + 1);
    }
  }

  /** A bound no candidate start passes while the tag checks still succeed. */
  function Limit(g: nat, tags: nat): nat
  {
    g * tags + Skip(g) + 1
  }

  lemma LemmaTagBound(a: nat, g: nat, tags: nat)
    requires g > 0 && TagOf(a, g) < tags
    ensures a < g * tags
  {
    var x := a * CHUNK_SIZE;
    var q := x / g;
    assert x == g * q + x % g;
    assert g * q + g == g * (q + 1);
    LemmaMulMonotone(g, q + 1, tags);
    LemmaMulMonotone(a, 1, CHUNK_SIZE);
  }

  lemma LemmaMulMonotone(g: nat, a: nat, b: nat)
    requires a <= b
    ensures g * a <= g * b
  {
    assert g * b == g * a + g * (b - a);
  }

  lemma LemmaDivMonotone(x: nat, y: nat, g: nat)
    requires g > 0 && x <= y
    ensures x / g <= y / g
  {
    var qx, qy := x / g, y / g;
    assert g * qx <= x;
    assert y < g * qy + g;
    assert g * qy + g == g * (qy + 1);
    if qy + 1 <= qx {
      LemmaMulMonotone(g, qy + 1, qx);
    }
  }

  lemma LemmaTagMonotone(a: nat, b: nat, g: nat)
    requires g > 0 && a <= b
    ensures TagOf(a, g) <= TagOf(b, g)
  {
    assert a * CHUNK_SIZE <= b * CHUNK_SIZE;
    LemmaDivMonotone(a * CHUNK_SIZE, b * CHUNK_SIZE, g);
  }

  /**
   * The `'search` loop of `ChunkAlloc::allocate` from candidate chunk `idx`, for a request
   * of `n` chunks. The candidate's unit and the unit just past its end are looked up (a
   * lookup past the tags gives up with `None`); a unit of the other type moves the
   * candidate on by one unit's worth of chunks, without looking again. Then the candidate's
   * chunks are checked in order: a used one restarts the search one chunk further on, one
   * past the used bits panics. A free run is claimed, which panics if its last chunk has no
   * tag.
   */
  function Search(used: seq<bool>, types: seq<Option<Type>>, g: nat, ty: Type, n: nat, idx: nat): Outcome<Option<nat>>
    requires g > 0
    decreases Limit(g, |types|) - idx
  {
    match Step(used, types, g, ty, n, idx)
    case Stop(outcome) => outcome
    case Retry(next) => Search(used, types, g, ty, n, next)
  }

  /** The candidate after the two tag lookups and their skips; `None` when a lookup falls past the tags. */
  function Candidate(types: seq<Option<Type>>, g: nat, ty: Type, n: nat, idx: nat): Option<nat>
    requires g > 0
  {
    var t0 := TagOf(idx, g);
    if t0 >= |types| then None
    else
      var idx1 := if Conflicts(types[t0], ty) then idx + Skip(g) else idx;
      var t1 := TagOf(idx1 + n, g);
      if t1 >= |types| then None
      else Some(if Conflicts(types[t1], ty) then idx1 + Skip(g) else idx1)
  }

  /** The candidate never falls behind the starting chunk, nor past `Limit`. */
  lemma LemmaCandidateBound(types: seq<Option<Type>>, g: nat, ty: Type, n: nat, idx: nat)
    requires g > 0 && Candidate(types, g, ty, n, idx).Some?
    ensures var k := Candidate(types, g, ty, n, idx).value; idx <= k && k + 1 < Limit(g, |types|)
  {
    var t0 := TagOf(idx, g);
    var idx1 := if Conflicts(types[t0], ty) then idx + Skip(g) else idx;
    LemmaTagBound(idx1 + n, g, |types|);
  }

  /** One round of the search: it stops with an outcome or retries from a later chunk. */
  datatype Round = Stop(outcome: Outcome<Option<nat>>) | Retry(next: nat)

  function Step(used: seq<bool>, types: seq<Option<Type>>, g: nat, ty: Type, n: nat, idx: nat): (s: Round)
    requires g > 0
    ensures s.Retry? ==> idx < s.next < Limit(g, |types|)
  {
    match Candidate(types, g, ty, n, idx)
    case None => Stop(Done(None))
    case Some(k) =>
      LemmaCandidateBound(types, g, ty, n, idx);
      match RunFrom(used, k, n, 0)
      case PastEnd => Stop(Panicked)
      case UsedChunk => Retry(k + 1)
      case AllFree =>
        if n > 0 && TagOf(k + n - 1, g) >= |types| then Stop(Panicked) else Stop(Done(Some(k)))
  }

  /** A run one round settles on was free, lies within the used bits, and every chunk of it has a tag. */
  lemma LemmaStepFound(used: seq<bool>, types: seq<Option<Type>>, g: nat, ty: Type, n: nat, idx: nat, k: nat)
    requires g > 0 && Step(used, types, g, ty, n, idx) == Stop(Done(Some(k)))
    ensures k >= idx
    ensures forall j :: k <= j < k + n ==> j < |used| && !used[j] && TagOf(j, g) < |types|
  {
    assert Candidate(types, g, ty, n, idx) == Some(k);
    assert RunFrom(used, k, n, 0) == AllFree;
    LemmaRunFree(used, k, n, 0);
    forall j | k <= j < k + n
      ensures j < |used| && !used[j] && TagOf(j, g) < |types|
    {
      assert k + 0 <= j < k + n;
      LemmaTagMonotone(j, k + n - 1, g);
    }
  }

  /** A run the search settles on was free, lies within the used bits, and every chunk of it has a tag. */
  lemma {:induction false} LemmaSearchFound(used: seq<bool>, types: seq<Option<Type>>, g: nat, ty: Type, n: nat, idx: nat)
    requires g > 0 && Search(used, types, g, ty, n, idx).Done? && Search(used, types, g, ty, n, idx).value.Some?
    ensures var k := Search(used, types, g, ty, n, idx).value.value;
            k >= idx &&
            forall j :: k <= j < k + n ==> j < |used| && !used[j] && TagOf(j, g) < |types|
    decreases Limit(g, |types|) - idx
  {
    match Step(used, types, g, ty, n, idx)
    case Stop(outcome) =>
      LemmaStepFound(used, types, g, ty, n, idx, outcome.value.value);
    case Retry(next) =>
      LemmaSearchFound(used, types, g, ty, n, next);
  }

  // ---------------------------------------------------------------------------------------
  // Specification of the state changes

  /** The used bits with chunks `k` to `k + n - 1` set. */
  function Claim(used: seq<bool>, k: nat, n: nat): (r: seq<bool>)
    ensures |r| == |used|
  {
    seq(|used|, j requires 0 <= j < |used| => if k <= j < k + n then true else used[j])
  }

  /** The used bits with chunks `start` to `end - 1` cleared. */
  function Release(used: seq<bool>, start: nat, end: nat): (r: seq<bool>)
    ensures |r| == |used|
  {
    seq(|used|, j requires 0 <= j < |used| => if start <= j < end then false else used[j])
  }

  /** The tags after the claim loop has tagged the unit of each of chunks `k` to `k + n - 1`. */
  function TagRun(types: seq<Option<Type>>, g: nat, k: nat, n: nat, ty: Type): (r: seq<Option<Type>>)
    requires g > 0 && forall j :: k <= j < k + n ==> TagOf(j, g) < |types|
    ensures |r| == |types|
  {
    if n == 0 then types else TagRun(types, g, k, n - 1, ty)[TagOf(k + n - 1, g) := Some(ty)]
  }

  /** Exactly the units some claimed chunk starts in end up tagged with the request's type. */
  lemma {:induction false} LemmaTagRun(types: seq<Option<Type>>, g: nat, k: nat, n: nat, ty: Type)
    requires g > 0 && forall j :: k <= j < k + n ==> TagOf(j, g) < |types|
    ensures forall t :: 0 <= t < |types| ==>
              TagRun(types, g, k, n, ty)[t] ==
                if exists j :: k <= j < k + n && TagOf(j, g) == t then Some(ty) else types[t]
  {
    if n > 0 {
      LemmaTagRun(types, g, k, n - 1, ty);
      forall t | 0 <= t < |types|
        ensures TagRun(types, g, k, n, ty)[t] ==
                  if exists j :: k <= j < k + n && TagOf(j, g) == t then Some(ty) else types[t]
      {
        if t != TagOf(k + n - 1, g) {
          if exists j :: k <= j < k + n && TagOf(j, g) == t {
            var j :| k <= j < k + n && TagOf(j, g) == t;
            assert k <= j < k + n - 1;
          }
        }
      }
    }
  }

  /** `ChunkAlloc::new`: `size / 8192` free chunks and `size / g` empty tags. */
  function NewChunks(size: nat, g: nat): (c: Chunks)
    requires g > 0
    ensures |c.used| == size / CHUNK_SIZE && |c.types| == size / g && c.g == g
    ensures forall j :: 0 <= j < |c.used| ==> !c.used[j]
    ensures forall t :: 0 <= t < |c.types| ==> c.types[t] == None
  {
    Chunks(seq(size / CHUNK_SIZE, _ => false), seq(size / g, _ => None), g)
  }

  /** `ChunkAlloc::allocate`: panic unless `align` divides the chunk size, then `Place`. */
  function ChunkAllocate(c: Chunks, ty: Type, size: nat, align: nat): Outcome<(Option<Span>, Chunks)>
    requires c.g > 0
  {
    if align == 0 || CHUNK_SIZE % align != 0 then Panicked else Place(c, ty, size)
  }

  /**
   * The search from chunk 0; a found run is marked used, its units tagged, and the range
   * `start * 8192 .. start * 8192 + size` returned.
   */
  function Place(c: Chunks, ty: Type, size: nat): Outcome<(Option<Span>, Chunks)>
    requires c.g > 0
  {
    var n := ChunksFor(size);
    match Search(c.used, c.types, c.g, ty, n, 0)
    case Panicked => Panicked
    case Done(None) => Done((None, c))
    case Done(Some(k)) =>
      LemmaSearchFound(c.used, c.types, c.g, ty, n, 0);
      Done((Some(Span(k * CHUNK_SIZE, k * CHUNK_SIZE + size)),
            Chunks(Claim(c.used, k, n), TagRun(c.types, c.g, k, n, ty), c.g)))
  }

  /** `ChunkAlloc::free`: clear the chunks from the start rounded up to the end rounded up. */
  function ChunkFree(c: Chunks, range: Span): Outcome<Chunks>
  {
    var start := ChunksFor(range.start);
    var end := ChunksFor(range.end);
    if start < end && end > |c.used| then Panicked
    else Done(c.(used := Release(c.used, start, end)))
  }

  // ---------------------------------------------------------------------------------------
  // Properties of one region

  /** The chunk a successful allocation starts at. */
  function FoundAt(c: Chunks, ty: Type, size: nat, align: nat): nat
    requires c.g > 0 && ChunkAllocate(c, ty, size, align).Done? && ChunkAllocate(c, ty, size, align).value.0.Some?
  {
    ChunkAllocate(c, ty, size, align).value.0.value.start / CHUNK_SIZE
  }

  /**
   * A successful allocation returns `size` bytes starting on a chunk boundary, hence on an
   * `align` boundary, and its chunks (if any) lie within the region.
   */
  lemma LemmaAllocateRange(c: Chunks, ty: Type, size: nat, align: nat)
    requires c.g > 0
    requires ChunkAllocate(c, ty, size, align).Done? && ChunkAllocate(c, ty, size, align).value.0.Some?
    ensures var span := ChunkAllocate(c, ty, size, align).value.0.value;
            span.start % CHUNK_SIZE == 0 && span.start % align == 0 &&
            span.end - span.start == size &&
            (size > 0 ==> FoundAt(c, ty, size, align) + ChunksFor(size) <= |c.used|)
  {
    var n := ChunksFor(size);
    var k := Search(c.used, c.types, c.g, ty, n, 0).value.value;
    LemmaSearchFound(c.used, c.types, c.g, ty, n, 0);
    LemmaChunkBoundary(k, align);
    assert ChunkAllocate(c, ty, size, align).value.0.value.start == k * CHUNK_SIZE;
    if size > 0 {
      assert k <= k + n - 1 < k + n;
    }
  }

  /** Every chunk of a successful allocation was free and is now used; no other bit changes. */
  lemma LemmaAllocateUsed(c: Chunks, ty: Type, size: nat, align: nat)
    requires c.g > 0 && ChunkAllocate(c, ty, size, align).Done? && ChunkAllocate(c, ty, size, align).value.0.Some?
    ensures var c', k, n := ChunkAllocate(c, ty, size, align).value.1, FoundAt(c, ty, size, align), ChunksFor(size);
            |c'.used| == |c.used| &&
            (forall j :: k <= j < k + n ==> j < |c.used| && !c.used[j] && c'.used[j]) &&
            (forall j :: 0 <= j < |c.used| && !(k <= j < k + n) ==> c'.used[j] == c.used[j])
  {
    var n := ChunksFor(size);
    var k := Search(c.used, c.types, c.g, ty, n, 0).value.value;
    LemmaSearchFound(c.used, c.types, c.g, ty, n, 0);
    LemmaChunkBoundary(k, 1);
    assert FoundAt(c, ty, size, align) == k;
    assert ChunkAllocate(c, ty, size, align).value.1.used == Claim(c.used, k, n);
  }

  /**
   * After a successful allocation the units its chunks start in carry the request's type,
   * and every other tag is as before.
   */
  lemma LemmaAllocateTags(c: Chunks, ty: Type, size: nat, align: nat)
    requires c.g > 0 && ChunkAllocate(c, ty, size, align).Done? && ChunkAllocate(c, ty, size, align).value.0.Some?
    ensures var c', k, n := ChunkAllocate(c, ty, size, align).value.1, FoundAt(c, ty, size, align), ChunksFor(size);
            |c'.types| == |c.types| && c'.g == c.g &&
            forall t :: 0 <= t < |c.types| ==>
              c'.types[t] == if exists j :: k <= j < k + n && TagOf(j, c.g) == t then Some(ty) else c.types[t]
  {
    var n := ChunksFor(size);
    var k := Search(c.used, c.types, c.g, ty, n, 0).value.value;
    LemmaSearchFound(c.used, c.types, c.g, ty, n, 0);
    LemmaTagRun(c.types, c.g, k, n, ty);
    LemmaChunkBoundary(k, 1);
    assert FoundAt(c, ty, size, align) == k;
    assert ChunkAllocate(c, ty, size, align).value.1.types == TagRun(c.types, c.g, k, n, ty);
  }

  /** A chunk boundary is a boundary of every alignment that divides the chunk size. */
  lemma LemmaChunkBoundary(k: nat, align: nat)
    requires align > 0 && CHUNK_SIZE % align == 0
    ensures (k * CHUNK_SIZE) % CHUNK_SIZE == 0 && (k * CHUNK_SIZE) / CHUNK_SIZE == k
    ensures (k * CHUNK_SIZE) % align == 0
  {
    var q := CHUNK_SIZE / align;
    assert CHUNK_SIZE == align * q;
    assert k * CHUNK_SIZE == align * (k * q);
    LemmaUniqueDiv(k * CHUNK_SIZE, align, k * q, 0);
  }

  lemma LemmaMulStep(g: nat, a: nat, b: nat)
    requires a < b
    ensures g * a + g <= g * b
  {
    assert g * b == g * a + g + g * (b - a - 1);
  }

  /** Quotient and remainder are the only such pair. */
  lemma LemmaUniqueDiv(x: nat, d: nat, q: nat, r: nat)
    requires d > 0 && r < d && x == d * q + r
    ensures x / d == q && x % d == r
  {
    var qq, rr := x / d, x % d;
    assert x == d * qq + rr;
    if qq < q {
      LemmaMulStep(d, qq, q);
    }
    if q < qq {
      LemmaMulStep(d, q, qq);
    }
  }

  /** A request that finds no room changes nothing. */
  lemma LemmaAllocateNoneUnchanged(c: Chunks, ty: Type, size: nat, align: nat)
    requires c.g > 0 && ChunkAllocate(c, ty, size, align).Done? && ChunkAllocate(c, ty, size, align).value.0.None?
    ensures ChunkAllocate(c, ty, size, align).value.1 == c
  {
  }

  lemma LemmaChunksForMultiple(k: nat, size: nat)
    ensures ChunksFor(k * CHUNK_SIZE) == k
    ensures ChunksFor(k * CHUNK_SIZE + size) == k + ChunksFor(size)
  {
    assert k * CHUNK_SIZE + (CHUNK_SIZE - 1) == k * CHUNK_SIZE + (CHUNK_SIZE - 1);
    assert k * CHUNK_SIZE + size + (CHUNK_SIZE - 1) == (size + (CHUNK_SIZE - 1)) + CHUNK_SIZE * k;
  }

  /** Freeing the range an allocation returned gives back exactly the used bits from before it. */
  lemma LemmaAllocateThenFree(c: Chunks, ty: Type, size: nat, align: nat)
    requires c.g > 0 && ChunkAllocate(c, ty, size, align).Done? && ChunkAllocate(c, ty, size, align).value.0.Some?
    ensures var (span, c') := ChunkAllocate(c, ty, size, align).value;
            ChunkFree(c', span.value) == Done(c.(types := c'.types))
  {
    var n := ChunksFor(size);
    var k := Search(c.used, c.types, c.g, ty, n, 0).value.value;
    LemmaSearchFound(c.used, c.types, c.g, ty, n, 0);
    LemmaChunksForMultiple(k, size);
    var (span, c') := ChunkAllocate(c, ty, size, align).value;
    assert Release(c'.used, k, k + n) == c.used;
  }

  // ---------------------------------------------------------------------------------------
  // The region allocator

  class ChunkAlloc {
    const chunks: nat
    const used: array<bool>
    const usedTypes: array<Option<Type>>
    const granularity: nat

    function State(): Chunks
      reads used, usedTypes
    {
      Chunks(used[..], usedTypes[..], granularity)
    }

    ghost predicate Valid()
    {
      used.Length == chunks && granularity > 0
    }

    /** `ChunkAlloc::new`: a zero granularity would divide by zero, so it is excluded. */
    constructor(size: nat, granularity: nat)
      requires granularity > 0
      ensures Valid() && chunks == size / CHUNK_SIZE && State() == NewChunks(size, granularity)
      ensures fresh(used) && fresh(usedTypes)
    {
      chunks := size / CHUNK_SIZE;
      used := new bool[size / CHUNK_SIZE](_ => false);
      usedTypes := new Option<Type>[size / granularity](_ => None);
      this.granularity := granularity;
    }

    /**
     * `ChunkAlloc::allocate`: the assertion that `align` divides the chunk size (a zero
     * `align` panics too, dividing by zero), then the `'search` loop.
     */
    method Allocate(ty: Type, size: nat, align: nat) returns (res: Outcome<Option<Span>>)
      requires Valid()
      modifies used, usedTypes
      ensures var out := ChunkAllocate(old(State()), ty, size, align);
              (res.Panicked? <==> out.Panicked?) &&
              (out.Done? ==> res == Done(out.value.0) && State() == out.value.1)
    {
      if align == 0 || CHUNK_SIZE % align != 0 {
        return Panicked;
      }
      res := PlaceRange(ty, size);
    }

    /** The search and claim once the alignment has been checked. */
    method PlaceRange(ty: Type, size: nat) returns (res: Outcome<Option<Span>>)
      requires Valid()
      modifies used, usedTypes
      ensures var out := Place(old(State()), ty, size);
              (res.Panicked? <==> out.Panicked?) &&
              (out.Done? ==> res == Done(out.value.0) && State() == out.value.1)
    {
      ghost var c := State();
      var found := SearchLoop(ty, size);
      assert found == Search(c.used, c.types, c.g, ty, ChunksFor(size), 0);
      match found
      case Panicked =>
        return Panicked;
      case Done(None) =>
        return Done(None);
      case Done(Some(k)) =>
        return Done(Some(Span(k * CHUNK_SIZE, k * CHUNK_SIZE + size)));
    }

    /** The `'search` loop, one `SearchRound` per iteration; it yields the chunk the range starts at. */
    method SearchLoop(ty: Type, size: nat) returns (found: Outcome<Option<nat>>)
      requires Valid()
      modifies used, usedTypes
      ensures found == Search(old(used[..]), old(usedTypes[..]), granularity, ty, ChunksFor(size), 0)
      ensures found == Done(None) ==> used[..] == old(used[..]) && usedTypes[..] == old(usedTypes[..])
      ensures found.Done? && found.value.Some? ==>
                var k, n := found.value.value, ChunksFor(size);
                (forall j :: k <= j < k + n ==> TagOf(j, granularity) < usedTypes.Length) &&
                used[..] == Claim(old(used[..]), k, n) &&
                usedTypes[..] == TagRun(old(usedTypes[..]), granularity, k, n, ty)
    {
      var idx: nat := 0;
      ghost var u, t, n := used[..], usedTypes[..], ChunksFor(size);
      while true
        invariant used[..] == u && usedTypes[..] == t
        invariant Search(u, t, granularity, ty, n, idx) == Search(u, t, granularity, ty, n, 0)
        decreases Limit(granularity, |t|) - idx
      {
        var round := SearchRound(ty, size, idx);
        match round
        case Retry(next) =>
          idx := next;
        case Stop(outcome) =>
          assert Search(u, t, granularity, ty, n, idx) == outcome || outcome.Panicked?;
          return outcome;
      }
    }

    /**
     * One iteration of the `'search` loop from candidate chunk `idx`: the tag lookups, the
     * scan of the candidate's chunks, and the claim loop when they are all free.
     */
    method SearchRound(ty: Type, size: nat, idx: nat) returns (r: Round)
      requires Valid()
      modifies used, usedTypes
      ensures var s := Step(old(used[..]), old(usedTypes[..]), granularity, ty, ChunksFor(size), idx);
              (r.Stop? && r.outcome.Panicked?) <==> (s.Stop? && s.outcome.Panicked?)
      ensures var s := Step(old(used[..]), old(usedTypes[..]), granularity, ty, ChunksFor(size), idx);
              !(r.Stop? && r.outcome.Panicked?) ==> r == s
      ensures r.Retry? || r == Stop(Done(None)) ==> used[..] == old(used[..]) && usedTypes[..] == old(usedTypes[..])
      ensures r.Stop? && r.outcome.Done? && r.outcome.value.Some? ==>
                var k, n := r.outcome.value.value, ChunksFor(size);
                (forall j :: k <= j < k + n ==> TagOf(j, granularity) < usedTypes.Length) &&
                used[..] == Claim(old(used[..]), k, n) &&
                usedTypes[..] == TagRun(old(usedTypes[..]), granularity, k, n, ty)
    {
      ghost var u, t := used[..], usedTypes[..];
      var n := ChunksFor(size);
      var candidate := CandidateAt(ty, n, idx);
      if candidate.None? {
        return Stop(Done(None));
      }
      var k := candidate.value;
      var run := ScanRun(k, n);
      if run == PastEnd {
        return Stop(Panicked);
      }
      if run == UsedChunk {
        return Retry(k + 1);
      }
      LemmaRunFree(u, k, n, 0);
      var claimed := ClaimRun(ty, k, n);
      if !claimed {
        return Stop(Panicked);
      }
      return Stop(Done(Some(k)));
    }

    /** The two tag lookups of one search round, with their skips. */
    method CandidateAt(ty: Type, n: nat, idx: nat) returns (r: Option<nat>)
      requires Valid()
      ensures r == Candidate(usedTypes[..], granularity, ty, n, idx)
    {
      var skip := Skip(granularity);
      var i := idx;
      var tyIdx := TagOf(i, granularity);
      if tyIdx >= usedTypes.Length {
        return None;
      }
      var typ := usedTypes[tyIdx];
      if typ != None && typ != Some(ty) {
        i := i + skip;
      }
      var tyIdxEnd := TagOf(i + n, granularity);
      if tyIdxEnd >= usedTypes.Length {
        return None;
      }
      typ := usedTypes[tyIdxEnd];
      if typ != None && typ != Some(ty) {
        i := i + skip;
      }
      return Some(i);
    }

    /** The scan of the candidate's chunks: the first used one, or one past the used bits, stops it. */
    method ScanRun(start: nat, n: nat) returns (r: Run)
      ensures r == RunFrom(used[..], start, n, 0)
    {
      var off: nat := 0;
      while off < n
        invariant off <= n
        invariant RunFrom(used[..], start, n, 0) == RunFrom(used[..], start, n, off)
      {
        if start + off >= used.Length {
          return PastEnd;
        }
        if used[start + off] {
          return UsedChunk;
        }
        off := off + 1;
      }
      return AllFree;
    }

    /**
     * The claim loop: mark each chunk used and tag its unit, panicking (`false`) at the first
     * chunk whose unit lies past the tags.
     */
    method ClaimRun(ty: Type, k: nat, n: nat) returns (ok: bool)
      requires Valid() && (n > 0 ==> k + n <= used.Length)
      modifies used, usedTypes
      ensures ok <==> (n > 0 ==> TagOf(k + n - 1, granularity) < usedTypes.Length)
      ensures ok ==> (forall j :: k <= j < k + n ==> TagOf(j, granularity) < usedTypes.Length) &&
                     used[..] == Claim(old(used[..]), k, n) &&
                     usedTypes[..] == TagRun(old(usedTypes[..]), granularity, k, n, ty)
    {
      ghost var u, t := used[..], usedTypes[..];
      var off := 0;
      while off < n
        invariant off <= n
        invariant forall j :: k <= j < k + off ==> TagOf(j, granularity) < |t|
        invariant used[..] == Claim(u, k, off) && usedTypes[..] == TagRun(t, granularity, k, off, ty)
      {
        used[k + off] := true;
        var tyIdx := TagOf(k + off, granularity);
        if tyIdx >= usedTypes.Length {
          LemmaTagMonotone(k + off, k + n - 1, granularity);
          return false;
        }
        usedTypes[tyIdx] := Some(ty);
        off := off + 1;
      }
      if n > 0 {
        assert k <= k + n - 1 < k + n;
      }
      return true;
    }

    /** `ChunkAlloc::free`: clear the used bit of every chunk the range reaches into; the tags stay. */
    method Free(range: Span) returns (res: Outcome<()>)
      requires Valid()
      modifies used
      ensures var out := ChunkFree(old(State()), range);
              (res.Panicked? <==> out.Panicked?) && (out.Done? ==> State() == out.value)
    {
      var start := ChunksFor(range.start);
      var end := ChunksFor(range.end);
      ghost var u := used[..];
      var i := start;
      while i < end
        invariant start <= i && (start < end ==> i <= end) && (end <= start ==> i == start)
        invariant start < i ==> i <= used.Length
        invariant used[..] == Release(u, start, i)
      {
        if i >= used.Length {
          return Panicked;
        }
        used[i] := false;
        i := i + 1;
      }
      assert Release(u, start, i) == Release(u, start, end);
      return Done(());
    }
  }

  // ---------------------------------------------------------------------------------------
  // Routing over regions and memory types

  /** A memory type as the device reports it; only its property flags matter here. */
  datatype MemoryType = MemoryType(properties: set<nat>)

  /** `memory::Requirements`: the bits of `type_mask` as the set of memory type ids it allows. */
  datatype Requirements = Requirements(size: nat, alignment: nat, typeMask: set<nat>)

  /**
   * The device memory behind one region. The device hands out a distinct object per call;
   * it is named here by the owning `GPUMemory`'s id and the region's position.
   */
  datatype Backing = Backing(memory: nat, region: nat)

  /** One `(ChunkAlloc, Box<B::Memory>)` pair of a `GPUMemory`. */
  datatype Region = Region(chunks: Chunks, backing: Backing)

  /** `Allocation`: the owning memory's id, the region's device memory and the byte range. */
  datatype Allocation = Allocation(owner: nat, memory: Backing, range: Span)

  /** The regions of memory `id`, in order, each with a non-zero granularity and its own backing. */
  ghost predicate RegionsValid(id: nat, regions: seq<Region>)
  {
    forall k :: 0 <= k < |regions| ==> regions[k].chunks.g > 0 && regions[k].backing == Backing(id, k)
  }

  /**
   * The loop over existing regions in `GPUMemory::allocate` from region `i`: the first
   * region whose allocator returns a range, with its new allocator state.
   */
  function FirstRegion(regions: seq<Region>, ty: Type, req: Requirements, i: nat): (r: Outcome<Option<(nat, Span, Chunks)>>)
    requires forall k :: 0 <= k < |regions| ==> regions[k].chunks.g > 0
    ensures r.Done? && r.value.Some? ==> i <= r.value.value.0 < |regions|
    decreases |regions| - i
  {
    if i >= |regions| then Done(None)
    else
      match ChunkAllocate(regions[i].chunks, ty, req.size, req.alignment)
      case Panicked => Panicked
      case Done((Some(span), c)) => Done(Some((i, span, c)))
      case Done((None, _)) => FirstRegion(regions, ty, req, i + 1)
  }

  /**
   * `GPUMemory::allocate` of memory `id` with regions `regions`: the first region that
   * accepts the request serves it; only when none does is a new region of `REGION_SIZE`
   * appended, and a request it cannot serve either panics (`expect`).
   */
  function MemAllocate(id: nat, regions: seq<Region>, g: nat, ty: Type, req: Requirements): Outcome<(Allocation, seq<Region>)>
    requires g > 0 && forall k :: 0 <= k < |regions| ==> regions[k].chunks.g > 0
  {
    match FirstRegion(regions, ty, req, 0)
    case Panicked => Panicked
    case Done(Some((i, span, c))) =>
      Done((Allocation(id, regions[i].backing, span), regions[i := Region(c, regions[i].backing)]))
    case Done(None) =>
      var backing := Backing(id, |regions|);
      match ChunkAllocate(NewChunks(REGION_SIZE, g), ty, req.size, req.alignment)
      case Done((Some(span), c)) => Done((Allocation(id, backing, span), regions + [Region(c, backing)]))
      case _ => Panicked
  }

  /** The loop in `GPUMemory::free` from region `i`: the first region whose device memory is `memory`. */
  function RegionOf(regions: seq<Region>, memory: Backing, i: nat): (r: Option<nat>)
    ensures r.Some? ==> i <= r.value < |regions| && regions[r.value].backing == memory
    ensures r.None? ==> forall k :: i <= k < |regions| ==> regions[k].backing != memory
    decreases |regions| - i
  {
    if i >= |regions| then None
    else if regions[i].backing == memory then Some(i)
    else RegionOf(regions, memory, i + 1)
  }

  /** `GPUMemory::free`: free the range in the region the allocation came from; no such region, no change. */
  function MemFree(regions: seq<Region>, alloc: Allocation): Outcome<seq<Region>>
  {
    match RegionOf(regions, alloc.memory, 0)
    case None => Done(regions)
    case Some(k) =>
      match ChunkFree(regions[k].chunks, alloc.range)
      case Panicked => Panicked
      case Done(c) => Done(regions[k := Region(c, regions[k].backing)])
  }

  /** Every region before the one `FirstRegion` settles on returned no range and is left as it was. */
  lemma {:induction false} LemmaFirstRegionSkips(regions: seq<Region>, ty: Type, req: Requirements, i: nat)
    requires forall k :: 0 <= k < |regions| ==> regions[k].chunks.g > 0
    requires FirstRegion(regions, ty, req, i).Done?
    ensures var r := FirstRegion(regions, ty, req, i);
            var end := if r.value.Some? then r.value.value.0 else |regions|;
            forall k :: i <= k < end ==> ChunkAllocate(regions[k].chunks, ty, req.size, req.alignment) ==
                                          Done((None, regions[k].chunks))
    ensures var r := FirstRegion(regions, ty, req, i);
            r.value.Some? ==>
              ChunkAllocate(regions[r.value.value.0].chunks, ty, req.size, req.alignment) ==
              Done((Some(r.value.value.1), r.value.value.2))
    decreases |regions| - i
  {
    if i < |regions| {
      var out := ChunkAllocate(regions[i].chunks, ty, req.size, req.alignment);
      if out.Done? && out.value.0.None? {
        LemmaAllocateNoneUnchanged(regions[i].chunks, ty, req.size, req.alignment);
        LemmaFirstRegionSkips(regions, ty, req, i + 1);
      }
    }
  }

  /**
   * A served request is owned by the memory, comes from the first region that accepts it
   * (every earlier region refused it and is unchanged), and changes no other region; a new
   * region is appended only when every existing one refused.
   */
  lemma LemmaMemAllocateFirstFit(id: nat, regions: seq<Region>, g: nat, ty: Type, req: Requirements)
    requires g > 0 && RegionsValid(id, regions)
    requires MemAllocate(id, regions, g, ty, req).Done?
    ensures var (alloc, after) := MemAllocate(id, regions, g, ty, req).value;
            alloc.owner == id && RegionsValid(id, after) &&
            alloc.memory.memory == id && alloc.memory.region < |after| &&
            (forall k :: 0 <= k < alloc.memory.region ==>
               ChunkAllocate(regions[k].chunks, ty, req.size, req.alignment) == Done((None, regions[k].chunks))) &&
            (forall k :: 0 <= k < |regions| && k != alloc.memory.region ==> after[k] == regions[k]) &&
            (|after| == |regions| || (|after| == |regions| + 1 && alloc.memory.region == |regions|)) &&
            ChunkAllocate(if alloc.memory.region < |regions| then regions[alloc.memory.region].chunks
                          else NewChunks(REGION_SIZE, g), ty, req.size, req.alignment) ==
              Done((Some(alloc.range), after[alloc.memory.region].chunks))
  {
    LemmaFirstRegionSkips(regions, ty, req, 0);
  }

  /** Freeing changes at most the region the allocation came from. */
  lemma LemmaMemFreeTouchesOwnRegion(regions: seq<Region>, alloc: Allocation)
    requires MemFree(regions, alloc).Done?
    ensures var after := MemFree(regions, alloc).value;
            |after| == |regions| &&
            forall k :: 0 <= k < |regions| && regions[k].backing != alloc.memory ==> after[k] == regions[k]
  {
  }

  /**
   * Freeing what `GPUMemory::allocate` returned gives every region back the used bits it had
   * before the allocation (a newly appended region has all its chunks free again).
   */
  lemma LemmaMemAllocateThenFree(id: nat, regions: seq<Region>, g: nat, ty: Type, req: Requirements)
    requires g > 0 && RegionsValid(id, regions)
    requires MemAllocate(id, regions, g, ty, req).Done?
    ensures var (alloc, after) := MemAllocate(id, regions, g, ty, req).value;
            var freed := MemFree(after, alloc);
            freed.Done? && |freed.value| == |after| &&
            (forall k :: 0 <= k < |regions| ==> freed.value[k].chunks.used == regions[k].chunks.used) &&
            (|after| > |regions| ==> freed.value[|regions|].chunks.used == NewChunks(REGION_SIZE, g).used)
  {
    var (alloc, after) := MemAllocate(id, regions, g, ty, req).value;
    LemmaMemAllocateFirstFit(id, regions, g, ty, req);
    var i := alloc.memory.region;
    var before := if i < |regions| then regions[i].chunks else NewChunks(REGION_SIZE, g);
    assert RegionOf(after, alloc.memory, 0) == Some(i);
    LemmaAllocateThenFree(before, ty, req.size, req.alignment);
  }

  /** The device memory of each region, in order: what `GPUMemory::destroy` hands back to the device. */
  function Backings(regions: seq<Region>): (r: seq<Backing>)
    ensures |r| == |regions|
  {
    seq(|regions|, k requires 0 <= k < |regions| => regions[k].backing)
  }

  /** `GPUAlloc::destroy`: the backings of every memory, memory by memory. */
  function AllBackings(memories: seq<seq<Region>>): seq<Backing>
  {
    if |memories| == 0 then [] else AllBackings(memories[..|memories| - 1]) + Backings(memories[|memories| - 1])
  }

  /** Destroying the allocator frees the device memory of every region of every memory, each exactly once. */
  lemma {:induction false} LemmaDestroyFreesEachOnce(memories: seq<seq<Region>>)
    requires forall i :: 0 <= i < |memories| ==> RegionsValid(i, memories[i])
    ensures forall i, k :: 0 <= i < |memories| && 0 <= k < |memories[i]| ==> Backing(i, k) in AllBackings(memories)
    ensures forall b :: b in AllBackings(memories) ==> b.memory < |memories| && b.region < |memories[b.memory]|
    ensures forall a, b :: 0 <= a < b < |AllBackings(memories)| ==> AllBackings(memories)[a] != AllBackings(memories)[b]
  {
    if |memories| > 0 {
      var n := |memories| - 1;
      var front := memories[..n];
      LemmaDestroyFreesEachOnce(front);
      var prev, last := AllBackings(front), Backings(memories[n]);
      assert AllBackings(memories) == prev + last;
      forall i, k | 0 <= i < |memories| && 0 <= k < |memories[i]|
        ensures Backing(i, k) in AllBackings(memories)
      {
        if i < n {
          assert memories[i] == front[i];
        } else {
          assert last[k] == Backing(i, k);
        }
      }
      forall a, b | 0 <= a < b < |prev + last|
        ensures (prev + last)[a] != (prev + last)[b]
      {
        if b >= |prev| && a < |prev| {
          assert prev[a] in prev;
        }
      }
    }
  }

  /** Whether a memory of type `typeId` with property flags `props` may serve the request. */
  predicate Compatible(typeId: nat, props: set<nat>, req: Requirements, wanted: set<nat>)
  {
    typeId in req.typeMask && wanted <= props
  }

  /** The loop over existing memories in `GPUAlloc::allocate`: the first compatible one from `i`. */
  function FirstMemory(kinds: seq<(nat, MemoryType)>, req: Requirements, wanted: set<nat>, i: nat): (r: Option<nat>)
    ensures r.Some? ==> i <= r.value < |kinds| && Compatible(kinds[r.value].0, kinds[r.value].1.properties, req, wanted)
    ensures r.Some? ==> forall k :: i <= k < r.value ==> !Compatible(kinds[k].0, kinds[k].1.properties, req, wanted)
    ensures r.None? ==> forall k :: i <= k < |kinds| ==> !Compatible(kinds[k].0, kinds[k].1.properties, req, wanted)
    decreases |kinds| - i
  {
    if i >= |kinds| then None
    else if Compatible(kinds[i].0, kinds[i].1.properties, req, wanted) then Some(i)
    else FirstMemory(kinds, req, wanted, i + 1)
  }

  /** The `find` over the device's memory types: the lowest compatible type id from `i`. */
  function FirstType(types: seq<MemoryType>, req: Requirements, wanted: set<nat>, i: nat): (r: Option<nat>)
    ensures r.Some? ==> i <= r.value < |types| && Compatible(r.value, types[r.value].properties, req, wanted)
    ensures r.Some? ==> forall k :: i <= k < r.value ==> !Compatible(k, types[k].properties, req, wanted)
    ensures r.None? ==> forall k :: i <= k < |types| ==> !Compatible(k, types[k].properties, req, wanted)
    decreases |types| - i
  {
    if i >= |types| then None
    else if Compatible(i, types[i].properties, req, wanted) then Some(i)
    else FirstType(types, req, wanted, i + 1)
  }

  // ---------------------------------------------------------------------------------------
  // The per-type and top-level allocators

  class GPUMemory {
    const id: nat
    const typeId: nat
    const ty: MemoryType
    var regions: seq<Region>

    ghost predicate Valid()
      reads this
    {
      RegionsValid(id, regions)
    }

    constructor(id: nat, typeId: nat, ty: MemoryType)
      ensures Valid() && this.id == id && this.typeId == typeId && this.ty == ty && regions == []
    {
      this.id := id;
      this.typeId := typeId;
      this.ty := ty;
      regions := [];
    }

    /** `GPUMemory::allocate`: try the regions in order, else append a new one. */
    method Allocate(granularity: nat, kind: Type, req: Requirements) returns (res: Outcome<Allocation>)
      requires Valid() && granularity > 0
      modifies this
      ensures var out := MemAllocate(id, old(regions), granularity, kind, req);
              (res.Panicked? <==> out.Panicked?) &&
              (out.Done? ==> res == Done(out.value.0) && regions == out.value.1 && Valid())
    {
      ghost var before := regions;
      var i := 0;
      while i < |regions|
        invariant i <= |regions| && regions == before
        invariant FirstRegion(regions, kind, req, i) == FirstRegion(regions, kind, req, 0)
      {
        var out := ChunkAllocate(regions[i].chunks, kind, req.size, req.alignment);
        match out
        case Panicked =>
          return Panicked;
        case Done((Some(range), c)) =>
          res := Done(Allocation(id, regions[i].backing, range));
          regions := regions[i := Region(c, regions[i].backing)];
          LemmaMemAllocateFirstFit(id, before, granularity, kind, req);
          return;
        case Done((None, _)) =>
          i := i + 1;
      }
      var region := Region(NewChunks(REGION_SIZE, granularity), Backing(id, |regions|));
      var out := ChunkAllocate(region.chunks, kind, req.size, req.alignment);
      if out.Panicked? {
        return Panicked;
      }
      var ret: Option<Allocation> := None;
      if out.value.0.Some? {
        ret := Some(Allocation(id, region.backing, out.value.0.value));
        region := region.(chunks := out.value.1);
      }
      regions := regions + [region];
      if ret.None? {
        return Panicked;
      }
      LemmaMemAllocateFirstFit(id, before, granularity, kind, req);
      return Done(ret.value);
    }

    /** `GPUMemory::free`: find the region whose device memory the allocation uses and free the range there. */
    method Free(alloc: Allocation) returns (res: Outcome<()>)
      requires Valid()
      modifies this
      ensures var out := MemFree(old(regions), alloc);
              (res.Panicked? <==> out.Panicked?) && (out.Done? ==> regions == out.value && Valid())
    {
      var i := 0;
      while i < |regions|
        invariant i <= |regions|
        invariant RegionOf(regions, alloc.memory, i) == RegionOf(regions, alloc.memory, 0)
      {
        if regions[i].backing == alloc.memory {
          var out := ChunkFree(regions[i].chunks, alloc.range);
          if out.Panicked? {
            return Panicked;
          }
          regions := regions[i := Region(out.value, regions[i].backing)];
          return Done(());
        }
        i := i + 1;
      }
      return Done(());
    }

    /** `GPUMemory::destroy`: give every region's device memory back, in order. */
    method Destroy() returns (freed: seq<Backing>)
      ensures freed == Backings(regions)
    {
      freed := [];
      for k := 0 to |regions|
        invariant freed == Backings(regions[..k])
      {
        freed := freed + [regions[k].backing];
        assert regions[..k + 1] == regions[..k] + [regions[k]];
      }
      assert regions[..|regions|] == regions;
    }
  }

  class GPUAlloc {
    /** `limits.buffer_image_granularity`. */
    const granularity: nat
    const memoryTypes: seq<MemoryType>
    var memory: seq<GPUMemory>

    ghost predicate Valid()
      reads this, memory
    {
      granularity > 0 &&
      (forall i :: 0 <= i < |memory| ==>
         memory[i].id == i && memory[i].Valid() &&
         memory[i].typeId < |memoryTypes| && memory[i].ty == memoryTypes[memory[i].typeId]) &&
      (forall i, j :: 0 <= i < j < |memory| ==> memory[i] != memory[j])
    }

    /** The memory type id and memory type of each memory, in order. */
    function Kinds(): (r: seq<(nat, MemoryType)>)
      reads this
      ensures |r| == |memory|
    {
      var ms := memory;
      seq(|ms|, i requires 0 <= i < |ms| => (ms[i].typeId, ms[i].ty))
    }

    /** The regions of each memory, in order. */
    function Regions(): (r: seq<seq<Region>>)
      reads this, memory
      ensures |r| == |memory|
    {
      var ms := memory;
      seq(|ms|, i requires 0 <= i < |ms| reads ms => ms[i].regions)
    }

    /** `GPUAlloc::new`; a zero granularity would panic in the first region, so it is excluded. */
    constructor(granularity: nat, memoryTypes: seq<MemoryType>)
      requires granularity > 0
      ensures Valid() && this.granularity == granularity && this.memoryTypes == memoryTypes && memory == []
    {
      this.granularity := granularity;
      this.memoryTypes := memoryTypes;
      memory := [];
    }

    /**
     * `GPUAlloc::allocate`: the first existing memory whose type the request allows and whose
     * properties contain the wanted ones serves it; otherwise a memory is created for the
     * lowest-numbered compatible memory type (panicking if there is none), serves the
     * request, and is pushed with an id equal to its position.
     */
    method Allocate(kind: Type, req: Requirements, wanted: set<nat>) returns (res: Outcome<Allocation>)
      requires Valid()
      modifies this, memory
      ensures var route := FirstMemory(old(Kinds()), req, wanted, 0);
              route.Some? ==>
                var i := route.value;
                var out := MemAllocate(i, old(memory[i].regions), granularity, kind, req);
                memory == old(memory) &&
                (res.Panicked? <==> out.Panicked?) &&
                (out.Done? ==> res == Done(out.value.0) && Regions() == old(Regions())[i := out.value.1] && Valid())
      ensures var route := FirstMemory(old(Kinds()), req, wanted, 0);
              route.None? && FirstType(memoryTypes, req, wanted, 0).None? ==> res.Panicked?
      ensures var route, t := FirstMemory(old(Kinds()), req, wanted, 0), FirstType(memoryTypes, req, wanted, 0);
              route.None? && t.Some? ==>
                var n := |old(memory)|;
                var out := MemAllocate(n, [], granularity, kind, req);
                (res.Panicked? <==> out.Panicked?) &&
                (out.Done? ==>
                   res == Done(out.value.0) && Valid() &&
                   |memory| == n + 1 && memory[..n] == old(memory) && fresh(memory[n]) &&
                   memory[n].typeId == t.value && memory[n].ty == memoryTypes[t.value] &&
                   Regions() == old(Regions()) + [out.value.1])
    {
      ghost var kinds, regions := Kinds(), Regions();
      var i := 0;
      while i < |memory|
        invariant i <= |memory| && memory == old(memory)
        invariant FirstMemory(kinds, req, wanted, i) == FirstMemory(kinds, req, wanted, 0)
      {
        var m := memory[i];
        if m.typeId in req.typeMask && wanted <= m.ty.properties {
          res := m.Allocate(granularity, kind, req);
          assert forall j :: 0 <= j < |memory| && j != i ==> memory[j].regions == regions[j];
          return;
        }
        i := i + 1;
      }
      res := AllocateNew(kind, req, wanted);
    }

    /** The second half of `GPUAlloc::allocate`: a new memory of the lowest compatible type. */
    method AllocateNew(kind: Type, req: Requirements, wanted: set<nat>) returns (res: Outcome<Allocation>)
      requires Valid()
      modifies this
      ensures FirstType(memoryTypes, req, wanted, 0).None? ==> res.Panicked?
      ensures var t := FirstType(memoryTypes, req, wanted, 0);
              t.Some? ==>
                var n := |old(memory)|;
                var out := MemAllocate(n, [], granularity, kind, req);
                (res.Panicked? <==> out.Panicked?) &&
                (out.Done? ==>
                   res == Done(out.value.0) && Valid() &&
                   |memory| == n + 1 && memory[..n] == old(memory) && fresh(memory[n]) &&
                   memory[n].typeId == t.value && memory[n].ty == memoryTypes[t.value] &&
                   Regions() == old(Regions()) + [out.value.1])
    {
      var t := FindType(req, wanted);
      if t.None? {
        return Panicked;
      }
      var m := new GPUMemory(|memory|, t.value, memoryTypes[t.value]);
      res := m.Allocate(granularity, kind, req);
      memory := memory + [m];
    }

    /** The `find` over the memory types, lowest id first. */
    method FindType(req: Requirements, wanted: set<nat>) returns (t: Option<nat>)
      ensures t == FirstType(memoryTypes, req, wanted, 0)
    {
      var id := 0;
      while id < |memoryTypes|
        invariant id <= |memoryTypes|
        invariant FirstType(memoryTypes, req, wanted, id) == FirstType(memoryTypes, req, wanted, 0)
      {
        if id in req.typeMask && wanted <= memoryTypes[id].properties {
          return Some(id);
        }
        id := id + 1;
      }
      return None;
    }

    /** `GPUAlloc::free`: the owner's memory frees it; an owner past the list panics. */
    method Free(alloc: Allocation) returns (res: Outcome<()>)
      requires Valid()
      modifies memory
      ensures alloc.owner >= |memory| ==> res.Panicked?
      ensures alloc.owner < |memory| ==>
                var out := MemFree(old(memory[alloc.owner].regions), alloc);
                (res.Panicked? <==> out.Panicked?) &&
                (out.Done? ==> Regions() == old(Regions())[alloc.owner := out.value] && Valid())
    {
      if alloc.owner >= |memory| {
        return Panicked;
      }
      ghost var regions := Regions();
      res := memory[alloc.owner].Free(alloc);
      assert forall j :: 0 <= j < |memory| && j != alloc.owner ==> memory[j].regions == regions[j];
    }

    /** `GPUAlloc::destroy`: destroy every memory in order. */
    method Destroy() returns (freed: seq<Backing>)
      requires Valid()
      ensures freed == AllBackings(Regions())
    {
      freed := [];
      ghost var all := Regions();
      for i := 0 to |memory|
        invariant freed == AllBackings(all[..i])
      {
        var released := memory[i].Destroy();
        freed := freed + released;
        assert all[..i + 1][..i] == all[..i];
      }
      assert all[..|memory|] == all;
    }
  }
}
