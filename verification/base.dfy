/** Integer and sequence primitives with Python 2 semantics, shared by every
    other module of the model. */
module PyArith {

  /** Python's `//` (and Python 2's `/` on ints): division rounding toward
      negative infinity, defined for every non-zero divisor. */
  function FloorDiv(a: int, b: int): (q: int)
    requires b != 0
    ensures b > 0 ==> b * q <= a < b * q + b
    ensures b < 0 ==> b * q + b < a <= b * q
  {
    if b > 0 then a / b else (-a) / (-b)
  }

  /** Python list indexing: a negative index counts from the end. */
  function PyIndex(i: int, n: nat): (j: nat)
    requires -(n as int) <= i < n
    ensures j < n
    ensures i >= 0 ==> j == i
    ensures i < 0 ==> j == n + i
  {
    if i < 0 then n + i else i
  }

  function Min(a: int, b: int): int { if a <= b then a else b }

  function Max(a: int, b: int): int { if a <= b then b else a }
}

module Optional {
  datatype Option<+T> = None | Some(value: T)
}

/** List surgery the game performs on its object list and inventory. */
module Seqs {

  /** `list.remove` of the element at position `k`. */
  function RemoveAt<T>(s: seq<T>, k: nat): (r: seq<T>)
    requires k < |s|
    ensures |r| == |s| - 1
    ensures forall j | 0 <= j < k :: r[j] == s[j]
    ensures forall j | k <= j < |r| :: r[j] == s[j + 1]
    ensures multiset(r) + multiset{s[k]} == multiset(s)
  {
    assert s == s[..k] + [s[k]] + s[k + 1..];
    s[..k] + s[k + 1..]
  }

  /** Where the element at position `j` ends up once the element at `k` has
      been moved to the front. */
  function BackShift(j: nat, k: nat): nat
  {
    if j == k then 0 else if j < k then j + 1 else j
  }

  /** `send_to_back`: remove the element at `k` and reinsert it at index 0,
      so that it is drawn first (underneath everything else). */
  function SendToBack<T>(s: seq<T>, k: nat): (r: seq<T>)
    requires k < |s|
    ensures |r| == |s|
    ensures forall j | 0 <= j < |s| :: r[BackShift(j, k)] == s[j]
    ensures multiset(r) == multiset(s)
  {
    assert s == s[..k] + [s[k]] + s[k + 1..];
    [s[k]] + s[..k] + s[k + 1..]
  }
}
