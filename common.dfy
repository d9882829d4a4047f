/** Machine integer ranges, Option/Result and the error kinds shared by every module. */
module Common {

  type byte = x: int | 0 <= x < 0x100
  type u16 = x: int | 0 <= x < 0x1_0000
  type u32 = x: int | 0 <= x < 0x1_0000_0000
  type u64 = x: int | 0 <= x < 0x1_0000_0000_0000_0000
  type i8 = x: int | -0x80 <= x < 0x80
  type i16 = x: int | -0x8000 <= x < 0x8000
  type i32 = x: int | -0x8000_0000 <= x < 0x8000_0000

  const U32_LIMIT: nat := 0x1_0000_0000
  const U64_LIMIT: nat := 0x1_0000_0000_0000_0000
  /** isize::MAX + 1: the first length a Vec refuses with "capacity overflow" */
  const ISIZE_LIMIT: nat := 0x8000_0000_0000_0000

  /** `v as u64` for an i32: sign extension, so negative values land at the top of the range */
  function AsU64(v: i32): (r: u64)
    ensures v >= 0 ==> r == v
    ensures v < 0 ==> r >= ISIZE_LIMIT && r - U64_LIMIT == v
  {
    if v >= 0 then v else U64_LIMIT + v
  }

  /** u64 addition with wrap-around, as a release build computes it */
  function WrapU64(v: nat): (r: u64)
    ensures v < U64_LIMIT ==> r == v
  {
    v % U64_LIMIT
  }

  /** u32 multiplication with wrap-around, as a release build computes it */
  function MulU32(a: u32, b: u32): (r: u32)
    ensures a * b < U32_LIMIT ==> r == a * b
  {
    var p := a * b;
    if p < U32_LIMIT then p else p % U32_LIMIT
  }

  /** Integer division as Rust computes it for i32: truncated toward zero. */
  function TruncDiv(a: int, b: int): (q: int)
    requires b > 0
    ensures a >= 0 ==> q == a / b
    ensures a < 0 ==> q <= 0
  {
    if a >= 0 then a / b else -((-a) / b)
  }

  /** `v as i16` for a value that fits in 32 bits: keep the low 16 bits, two's complement */
  function AsI16(v: int): (r: i16)
    ensures -0x8000 <= v < 0x8000 ==> r == v
  {
    var low := v % 0x1_0000;
    if low < 0x8000 then low else low - 0x1_0000
  }

  datatype Option<T> = None | Some(value: T)

  /**
   * The ways an operation of the source can end other than with a value. Panic is not an
   * error value in the source: it stands for a Rust panic (an index out of bounds, an
   * `unwrap` or `expect` on nothing, a vector whose capacity overflows), which aborts.
   */
  datatype Error = Io | BadMagic | BadVersion | Utf8 | NotFound | Panic

  datatype Result<T> = Ok(value: T) | Err(error: Error) {
    predicate IsFailure() { Err? }
    function PropagateFailure<U>(): Result<U> requires Err? { Err(error) }
    function Extract(): T requires Ok? { value }
  }

  /**
   * The values of `results` in order, or the error of the first that failed: what a loop
   * pushing each decoded item and returning early with `?` produces.
   */
  function Collect<T>(results: seq<Result<T>>): Result<seq<T>>
  {
    if |results| == 0 then Ok([])
    else
      match Collect(results[..|results| - 1])
      case Err(e) => Err(e)
      case Ok(prev) =>
        match results[|results| - 1]
        case Err(e) => Err(e)
        case Ok(v) => Ok(prev + [v])
  }

  /** One more result extends the collected values by it, or ends the collection with its error. */
  lemma LemmaCollectSnoc<T>(results: seq<Result<T>>, next: Result<T>)
    requires Collect(results).Ok?
    ensures next.Err? ==> Collect(results + [next]) == Err(next.error)
    ensures next.Ok? ==> Collect(results + [next]) == Ok(Collect(results).value + [next.value])
  {
    assert (results + [next])[..|results|] == results;
  }

  /** Once a result has failed, nothing after it changes the outcome. */
  lemma {:induction false} LemmaCollectFailureSticks<T>(results: seq<Result<T>>, more: seq<Result<T>>)
    requires Collect(results).Err?
    ensures Collect(results + more) == Collect(results)
    decreases |more|
  {
    if |more| == 0 {
      assert results + more == results;
    } else {
      var init := more[..|more| - 1];
      LemmaCollectFailureSticks(results, init);
      assert (results + more)[..|results + more| - 1] == results + init;
    }
  }

  /** The collection succeeds exactly when every result does, and then holds their values in order. */
  lemma {:induction false} LemmaCollectAllOk<T>(results: seq<Result<T>>)
    ensures Collect(results).Ok? <==> forall k :: 0 <= k < |results| ==> results[k].Ok?
    ensures Collect(results).Ok? ==>
              |Collect(results).value| == |results| &&
              forall k :: 0 <= k < |results| ==> results[k] == Ok(Collect(results).value[k])
    decreases |results|
  {
    if |results| > 0 {
      var init := results[..|results| - 1];
      LemmaCollectAllOk(init);
      assert forall k :: 0 <= k < |init| ==> init[k] == results[k];
    }
  }

  /** A failed collection carries the error of the first result that failed. */
  lemma {:induction false} LemmaCollectFirstFailure<T>(results: seq<Result<T>>)
    requires Collect(results).Err?
    ensures exists k :: 0 <= k < |results| && results[k] == Err(Collect(results).error) &&
                        forall j :: 0 <= j < k ==> results[j].Ok?
    decreases |results|
  {
    var init := results[..|results| - 1];
    assert forall k :: 0 <= k < |init| ==> init[k] == results[k];
    if Collect(init).Err? {
      LemmaCollectFirstFailure(init);
      var k :| 0 <= k < |init| && init[k] == Err(Collect(init).error) && forall j :: 0 <= j < k ==> init[j].Ok?;
      assert results[k] == init[k];
    } else {
      LemmaCollectAllOk(init);
      var k := |results| - 1;
      assert forall j :: 0 <= j < k ==> results[j].Ok?;
    }
  }
}
