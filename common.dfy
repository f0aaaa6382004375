/** Values the runtime supplies to the translator: nullable references,
    32-bit integers with their wrap-around negation, and string dictionaries. */
module Common {

  /** A C# nullable reference or `int?`: `None` stands for `null`. */
  datatype Option<+T> = None | Some(value: T)

  const MinInt32: int := -0x8000_0000
  const MaxInt32: int := 0x7FFF_FFFF

  /** The C# `int` type. */
  type Int32 = x: int | MinInt32 <= x <= MaxInt32

  /** Unary minus on a C# `int` (unchecked context): the result is congruent
      to `-n` modulo 2^32, so `int.MinValue` negates to itself. */
  function Negate(n: Int32): (r: Int32)
    ensures (r + n) % 0x1_0000_0000 == 0
    ensures n != MinInt32 ==> r + n == 0
  {
    if n == MinInt32 then n else -n
  }

  /** Exactly one value in the 32-bit range is congruent to `-n`: the result of `Negate`. */
  lemma NegateIsUnique(n: Int32, r: Int32)
    requires (r + n) % 0x1_0000_0000 == 0
    ensures r == Negate(n)
  {
    var k := (r + n) / 0x1_0000_0000;
    assert r + n == k * 0x1_0000_0000;
    assert -0x1_0000_0000 <= r + n < 0x1_0000_0000;
    assert k == -1 || k == 0;
  }

  predicate DistinctKeys(s: seq<(string, string)>)
  {
    forall i, j :: 0 <= i < j < |s| ==> s[i].0 != s[j].0
  }

  /** A `Dictionary<string, string>` as its enumeration: an ordered sequence of
      entries with pairwise distinct keys. */
  type Dict = s: seq<(string, string)> | DistinctKeys(s)

  /** The lookup view of a dictionary: the keys it holds and the value of each. */
  function ToMap(d: Dict): (m: map<string, string>)
    ensures forall k :: k in m <==> exists i :: 0 <= i < |d| && d[i].0 == k
    ensures forall i :: 0 <= i < |d| ==> d[i].0 in m && m[d[i].0] == d[i].1
    decreases |d|
  {
    if d == [] then map[]
    else
      var rest: Dict := d[1..];
      ToMap(rest)[d[0].0 := d[0].1]
  }
}
