/** Small value-level helpers shared by every module of the model. */
module Common {

  datatype Option<T> = None | Some(value: T)

  /** `n` copies of `x`: what `insert(end, n, x)` and `resize(len + n, x)` append. */
  function Repeat<T>(x: T, n: nat): (r: seq<T>)
    ensures |r| == n
    ensures forall i :: 0 <= i < n ==> r[i] == x
  {
    seq(n, _ => x)
  }

  /**
   * `s` extended with copies of `fill` just far enough that index `i` exists; unchanged when it
   * already does. This is the growth step of both storages and of a short entity mask.
   */
  function Cover<T>(s: seq<T>, fill: T, i: nat): (r: seq<T>)
    ensures i < |r|
    ensures |r| == if i < |s| then |s| else i + 1
    ensures r[..|s|] == s
    ensures forall j :: |s| <= j < |r| ==> r[j] == fill
  {
    if i < |s| then s else s + Repeat(fill, i + 1 - |s|)
  }

  /**
   * Covering `a` and then `b` is covering the larger of the two: adding a component to a high
   * entity first and to lower ones later leaves the same slots as the other order.
   */
  lemma {:induction false} CoverTwice<T>(s: seq<T>, fill: T, a: nat, b: nat)
    ensures Cover(Cover(s, fill, a), fill, b) == Cover(s, fill, if a < b then b else a)
  {
    var m := if a < b then b else a;
    var left := Cover(Cover(s, fill, a), fill, b);
    var right := Cover(s, fill, m);
    assert |left| == |right|;
    forall j | 0 <= j < |left|
      ensures left[j] == right[j]
    {
      var mid := Cover(s, fill, a);
      if j < |s| {
        assert mid[..|s|][j] == s[j];
        assert left[..|mid|][j] == mid[j];
        assert right[..|s|][j] == s[j];
      } else if j < |mid| {
        assert left[..|mid|][j] == mid[j];
      }
    }
  }

  /** A product with a non-negative factor keeps the sign of the other. */
  lemma MulNonneg(x: int, d: int)
    requires x >= 0 && d >= 0
    ensures x * d >= 0
  {
  }

  /** The only multiple of `d` strictly between `-d` and `d` is zero. */
  lemma ZeroMultiple(k: int, d: int)
    requires d >= 1 && -d < k * d < d
    ensures k == 0
  {
    if k >= 1 {
      MulNonneg(k - 1, d);
      assert false;
    } else if k <= -1 {
      MulNonneg(-k - 1, d);
      assert false;
    }
  }

  /** Euclidean division is unique: a quotient and a remainder in range are the ones `/` and `%` give. */
  lemma DivModUnique(a: nat, d: nat, q: nat, r: nat)
    requires d >= 1 && r < d && a == q * d + r
    ensures a / d == q && a % d == r
  {
    ZeroMultiple(a / d - q, d);
  }
}
