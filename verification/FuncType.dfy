/** Function types, stored inline or on the heap (crates/core/src/func_type.rs). */
module FuncTypes {
  import opened Prelude

  datatype ValType = I32 | I64 | F32 | F64 | V128 | FuncRef | ExternRef

  const INLINE_SIZE: nat := 21
  const MAX_LEN_PARAMS: nat := 1_000
  const MAX_LEN_RESULTS: nat := 1_000

  datatype FuncTypeError = TooManyFunctionParams | TooManyFunctionResults

  datatype FuncType =
    | Inline(lenParams: Byte, lenResults: Byte, cells: seq<ValType>)
    | Big(lenParams16: U16, paramsResults: seq<ValType>)
  {
    /** What every constructed value satisfies. */
    ghost predicate Valid() {
      match this
      case Inline(p, r, cells) =>
        && |cells| == INLINE_SIZE && p + r <= INLINE_SIZE
        && forall i :: p + r <= i < INLINE_SIZE ==> cells[i] == I32
      case Big(p, all) => INLINE_SIZE < |all| < TWO_16 && p <= |all|
    }

    function Params(): seq<ValType>
      requires Valid()
    {
      match this
      case Inline(p, _, cells) => cells[..p]
      case Big(p, all) => all[..p]
    }

    function Results(): seq<ValType>
      requires Valid()
    {
      match this
      case Inline(p, r, cells) => cells[p..p + r]
      case Big(p, all) => all[p..]
    }

    /** The conversion of the buffer length to `u16` cannot fail, nor the subtraction underflow. */
    function LenResults(): (n: U16)
      requires Valid()
      ensures n == |Results()|
    {
      match this
      case Inline(_, r, _) => r
      case Big(p, all) => |all| - p
    }
  }

  /** `FuncTypeInner::try_new_small`: fills a local array in two loops. */
  method TryNewSmall(params: seq<ValType>, results: seq<ValType>) returns (r: Option<FuncType>)
    ensures r.Some? <==> |params| + |results| <= 21
    ensures r.Some? ==> r.value.Inline? && r.value.Valid() && r.value.Params() == params && r.value.Results() == results
  {
    if |params| > 255 || |results| > 255 || |params| + |results| > 255 {
      return None;
    }
    if |params| + |results| > INLINE_SIZE {
      return None;
    }
    var cells := new ValType[INLINE_SIZE](i => I32);
    for i := 0 to |params|
      invariant forall j :: 0 <= j < INLINE_SIZE ==> cells[j] == if j < i then params[j] else I32
    {
      cells[i] := params[i];
    }
    for i := 0 to |results|
      invariant forall j :: 0 <= j < INLINE_SIZE ==>
                  cells[j] == if j < |params| then params[j]
                              else if j < |params| + i then results[j - |params|] else I32
    {
      cells[|params| + i] := results[i];
    }
    assert cells[..][..|params|] == params;
    assert cells[..][|params|..|params| + |results|] == results;
    return Some(Inline(|params|, |results|, cells[..]));
  }

  method New(params: seq<ValType>, results: seq<ValType>) returns (r: Result<FuncType, FuncTypeError>)
    ensures |params| > 1_000 ==> r == Err(TooManyFunctionParams)
    ensures |params| <= 1_000 && |results| > 1_000 ==> r == Err(TooManyFunctionResults)
    ensures |params| <= 1_000 && |results| <= 1_000 ==>
              r.Ok? && r.value.Valid() && r.value.Params() == params && r.value.Results() == results
  {
    if |params| > MAX_LEN_PARAMS {
      return Err(TooManyFunctionParams);
    }
    if |results| > MAX_LEN_RESULTS {
      return Err(TooManyFunctionResults);
    }
    var small := TryNewSmall(params, results);
    if small.Some? {
      return Ok(small.value);
    }
    return Ok(Big(|params|, params + results));
  }

  /** CANONICAL STORAGE: two constructed types are structurally equal exactly when they have the same
      parameters and results, whichever way each is stored. */
  lemma StructuralEqualityIsTypeEquality(a: FuncType, b: FuncType)
    requires a.Valid() && b.Valid()
    ensures a == b <==> a.Params() == b.Params() && a.Results() == b.Results()
  {
    if a.Params() == b.Params() && a.Results() == b.Results() {
      LengthDecidesStorage(a);
      LengthDecidesStorage(b);
      if a.Inline? {
        InlineCellsAreDetermined(a, b);
      } else {
        assert a.paramsResults == a.Params() + a.Results();
        assert b.paramsResults == b.Params() + b.Results();
      }
    }
  }

  /** The unused cells all hold the same filler. */
  lemma InlineCellsAreDetermined(a: FuncType, b: FuncType)
    requires a.Valid() && b.Valid() && a.Inline? && b.Inline?
    requires a.Params() == b.Params() && a.Results() == b.Results()
    ensures a == b
  {
    var p, r := |a.Params()|, |a.Results()|;
    assert a.cells == a.Params() + a.Results() + a.cells[p + r..];
    assert b.cells == b.Params() + b.Results() + b.cells[p + r..];
    assert a.cells[p + r..] == b.cells[p + r..];
  }

  lemma LengthDecidesStorage(a: FuncType)
    requires a.Valid()
    ensures a.Inline? <==> |a.Params()| + |a.Results()| <= INLINE_SIZE
  {
  }
}
