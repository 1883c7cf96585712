/** The optional value used where the program returns `None`. */
module Wrappers {
  datatype Option<+T> = None | Some(value: T)
}

/**
 * Knapsack solutions: bit vectors with one bit per item, their dot product
 * with a value or weight list, the feasibility test and the single-bit flip.
 */
module Solutions {

  /** A bit as the program draws it: 0 (item left out) or 1 (item packed). */
  type Bit = b: int | 0 <= b <= 1

  type Solution = seq<Bit>

  /** The number of rounds `range(n)` runs: n when positive, otherwise none. */
  function RangeLen(n: int): (r: nat)
    ensures n >= 0 ==> r == n
    ensures n <= 0 ==> r == 0
  {
    if n > 0 then n else 0
  }

  predicate NonNegative(u: seq<int>)
  {
    forall i :: 0 <= i < |u| ==> u[i] >= 0
  }

  /** The sum of the positive entries of `u`: no solution scores more. */
  function PosSum(u: seq<int>): (r: int)
    ensures r >= 0
    decreases |u|
  {
    if |u| == 0 then 0
    else PosSum(u[..|u| - 1]) + (if u[|u| - 1] > 0 then u[|u| - 1] else 0)
  }

  /**
   * The sum of s[i] * u[i] over the indices of `u`, added left to right.
   * Used with the value list (fitness) and with the weight list (weight).
   * A solution may be longer than `u`; a shorter one would be indexed
   * out of range.
   */
  function Dot(s: Solution, u: seq<int>): int
    requires |u| <= |s|
    decreases |u|
  {
    if |u| == 0 then 0 else Dot(s, u[..|u| - 1]) + s[|u| - 1] * u[|u| - 1]
  }

  /** No solution scores more than the sum of the positive coefficients, and none scores below 0 when all are non-negative. */
  lemma {:induction false} DotBounds(s: Solution, u: seq<int>)
    requires |u| <= |s|
    ensures Dot(s, u) <= PosSum(u)
    ensures NonNegative(u) ==> Dot(s, u) >= 0
    decreases |u|
  {
    if |u| > 0 {
      var n := |u| - 1;
      DotBounds(s, u[..n]);
      if NonNegative(u) {
        assert NonNegative(u[..n]) by {
          forall i | 0 <= i < n ensures u[..n][i] >= 0 { assert u[..n][i] == u[i]; }
        }
      }
    }
  }

  /** Feasibility: the packed weight does not exceed the capacity (equality is feasible). */
  predicate IsValid(s: Solution, weights: seq<int>, capacity: int)
    requires |weights| <= |s|
  {
    Dot(s, weights) <= capacity
  }

  /** A fresh copy of `s` with the bit at `pos` inverted; `s` itself is a value and stays as it was. */
  function Flip(s: Solution, pos: nat): (r: Solution)
    requires pos < |s|
    ensures |r| == |s| && r[pos] == 1 - s[pos] && r[pos] != s[pos]
    ensures forall j :: 0 <= j < |s| && j != pos ==> r[j] == s[j]
  {
    s[pos := 1 - s[pos]]
  }

  /** Flipping the same position twice gives back the original vector. */
  lemma FlipInvolution(s: Solution, pos: nat)
    requires pos < |s|
    ensures Flip(Flip(s, pos), pos) == s
  {
    var t := Flip(Flip(s, pos), pos);
    assert |t| == |s|;
    forall j | 0 <= j < |s| ensures t[j] == s[j] {
      if j != pos { assert Flip(s, pos)[j] == s[j]; }
    }
  }

  /** The dot product only reads the first |u| bits. */
  lemma {:induction false} DotAgree(s: Solution, t: Solution, u: seq<int>)
    requires |u| <= |s| && |u| <= |t|
    requires forall j :: 0 <= j < |u| ==> s[j] == t[j]
    ensures Dot(s, u) == Dot(t, u)
    decreases |u|
  {
    if |u| > 0 {
      DotAgree(s, t, u[..|u| - 1]);
    }
  }

  /**
   * Flipping bit i changes the dot product by exactly u[i]: it adds u[i]
   * when the bit goes from 0 to 1 and subtracts it when it goes from 1 to 0;
   * a bit beyond |u| does not count.
   */
  lemma {:induction false} DotFlip(s: Solution, u: seq<int>, i: nat)
    requires |u| <= |s| && i < |s|
    ensures i < |u| && s[i] == 0 ==> Dot(Flip(s, i), u) == Dot(s, u) + u[i]
    ensures i < |u| && s[i] == 1 ==> Dot(Flip(s, i), u) == Dot(s, u) - u[i]
    ensures i >= |u| ==> Dot(Flip(s, i), u) == Dot(s, u)
    decreases |u|
  {
    var t := Flip(s, i);
    if |u| == 0 {
    } else if i >= |u| {
      DotAgree(s, t, u);
    } else {
      var n := |u| - 1;
      var p := u[..n];
      if i == n {
        DotAgree(s, t, p);
      } else {
        DotFlip(s, p, i);
        assert t[n] == s[n];
        assert p[i] == u[i];
      }
    }
  }

  /** The all-zero vector scores 0 against any list. */
  lemma {:induction false} DotZero(s: Solution, u: seq<int>)
    requires |u| <= |s|
    requires forall j :: 0 <= j < |s| ==> s[j] == 0
    ensures Dot(s, u) == 0
    decreases |u|
  {
    if |u| > 0 {
      DotZero(s, u[..|u| - 1]);
    }
  }

  /** The empty knapsack is feasible exactly when the capacity is not negative. */
  lemma EmptyIsValid(s: Solution, weights: seq<int>, capacity: int)
    requires |weights| <= |s|
    requires forall j :: 0 <= j < |s| ==> s[j] == 0
    ensures IsValid(s, weights, capacity) <==> capacity >= 0
  {
    DotZero(s, weights);
  }

  /** With non-negative weights, taking an item out of a feasible knapsack keeps it feasible. */
  lemma RemovingKeepsValid(s: Solution, weights: seq<int>, capacity: int, i: nat)
    requires |weights| <= |s| && i < |s| && s[i] == 1
    requires NonNegative(weights) && IsValid(s, weights, capacity)
    ensures IsValid(Flip(s, i), weights, capacity)
  {
    DotFlip(s, weights, i);
  }

  /** A negative score needs a packed item with a negative coefficient. */
  lemma {:induction false} NegativeScoreHasNegativeItem(s: Solution, u: seq<int>)
    requires |u| <= |s| && Dot(s, u) < 0
    ensures exists i :: 0 <= i < |u| && s[i] == 1 && u[i] < 0
    decreases |u|
  {
    var n := |u| - 1;
    if s[n] == 1 && u[n] < 0 {
    } else {
      NegativeScoreHasNegativeItem(s, u[..n]);
      var i :| 0 <= i < n && s[i] == 1 && u[..n][i] < 0;
      assert u[i] == u[..n][i];
    }
  }

  /** Scaling every coefficient by c scales the dot product by c. */
  lemma {:induction false} DotScale(s: Solution, u: seq<int>, v: seq<int>, c: int)
    requires |u| == |v| <= |s|
    requires forall i :: 0 <= i < |u| ==> v[i] == c * u[i]
    ensures Dot(s, v) == c * Dot(s, u)
    decreases |u|
  {
    if |u| > 0 {
      var n := |u| - 1;
      var p, q := u[..n], v[..n];
      assert forall i :: 0 <= i < |p| ==> q[i] == c * p[i] by {
        forall i | 0 <= i < |p| ensures q[i] == c * p[i] { assert q[i] == v[i] && p[i] == u[i]; }
      }
      DotScale(s, p, q, c);
      var d := Dot(s, p);
      assert Dot(s, v) == c * d + s[n] * v[n];
      if s[n] == 0 {
        assert Dot(s, u) == d;
      } else {
        assert Dot(s, u) == d + u[n];
        assert c * (d + u[n]) == c * d + c * u[n];
      }
    }
  }
}
