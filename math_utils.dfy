/**
 * `bigIntMin` and `bigIntMax` from lib/db/utils/math.ts: a `reduce` without an
 * initial value over the argument list. The fold starts from the first element and,
 * for each further element, keeps it only when it is strictly better. `reduce` on an
 * empty list throws a TypeError, which is modelled as `None`.
 */
module MathUtils {
  import opened Wrappers

  /** The reducer `(min, v) => (v < min ? v : min)` folded over `rest`, from `acc`. */
  function FoldMin(acc: int, rest: seq<int>): (r: int)
    ensures r == acc || r in rest
    ensures r <= acc && forall v :: v in rest ==> r <= v
    decreases |rest|
  {
    if rest == [] then acc
    else
      assert rest == [rest[0]] + rest[1..];
      FoldMin(if rest[0] < acc then rest[0] else acc, rest[1..])
  }

  /** The reducer `(max, v) => (v > max ? v : max)` folded over `rest`, from `acc`. */
  function FoldMax(acc: int, rest: seq<int>): (r: int)
    ensures r == acc || r in rest
    ensures r >= acc && forall v :: v in rest ==> r >= v
    decreases |rest|
  {
    if rest == [] then acc
    else
      assert rest == [rest[0]] + rest[1..];
      FoldMax(if rest[0] > acc then rest[0] else acc, rest[1..])
  }

  /** `bigIntMin(...values)`: the least element; `None` where `reduce` throws. */
  function BigIntMin(values: seq<int>): (r: Option<int>)
    ensures r.Some? <==> |values| > 0
    ensures r.Some? ==> r.value in values && forall v :: v in values ==> r.value <= v
  {
    if values == [] then None
    else
      assert values == [values[0]] + values[1..];
      Some(FoldMin(values[0], values[1..]))
  }

  /** `bigIntMax(...values)`: the greatest element; `None` where `reduce` throws. */
  function BigIntMax(values: seq<int>): (r: Option<int>)
    ensures r.Some? <==> |values| > 0
    ensures r.Some? ==> r.value in values && forall v :: v in values ==> r.value >= v
  {
    if values == [] then None
    else
      assert values == [values[0]] + values[1..];
      Some(FoldMax(values[0], values[1..]))
  }

  /** The two-argument calls the indexer makes: the result is one of the two and bounds both. */
  lemma TwoArguments(a: int, b: int)
    ensures BigIntMin([a, b]) == Some(if b < a then b else a)
    ensures BigIntMax([a, b]) == Some(if b > a then b else a)
    ensures BigIntMin([a, b]).value <= a && BigIntMax([0, b]).value >= 0
  {
    assert BigIntMax([0, b]).value in [0, b];
  }
}
