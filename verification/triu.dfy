/**
 The upper-triangular index list of an N x N table: every cell (i, j) with
 i <= j, in row-major order (i ascending, then j ascending). This is the
 order in which the segment encoder lays out its segments.
 */
module Triu {

  /** Row `i` of the triangle: (i, i), (i, i+1), ..., (i, n-1). */
  function Row(n: nat, i: nat): seq<(nat, nat)>
    requires i <= n
  {
    seq(n - i, k requires 0 <= k < n - i => (i, i + k))
  }

  /** Rows `i` to `n-1` of the triangle, one after the other. */
  function From(n: nat, i: nat): seq<(nat, nat)>
    requires i <= n
    decreases n - i
  {
    if i == n then [] else Row(n, i) + From(n, i + 1)
  }

  /** The index list of the whole triangle. */
  function Indices(n: nat): seq<(nat, nat)>
  {
    From(n, 0)
  }

  /** Row-major order on cells. */
  predicate Before(a: (nat, nat), b: (nat, nat))
  {
    a.0 < b.0 || (a.0 == b.0 && a.1 < b.1)
  }

  /** Number of cells in the rows above row `i`. */
  function Offset(n: nat, i: nat): nat
    requires i <= n
  {
    if i == 0 then 0 else Offset(n, i - 1) + (n - (i - 1))
  }

  /** Closed form of the row offset. */
  lemma {:induction false} OffsetClosedForm(n: nat, i: nat)
    requires i <= n
    ensures 2 * Offset(n, i) == 2 * i * n - i * (i - 1)
  {
    if i > 0 {
      OffsetClosedForm(n, i - 1);
      assert 2 * i * n - i * (i - 1) == 2 * (i - 1) * n - (i - 1) * (i - 2) + 2 * (n - (i - 1));
    }
  }

  lemma {:induction false} FromLength(n: nat, i: nat)
    requires i <= n
    ensures 2 * |From(n, i)| == (n - i) * (n - i + 1)
    decreases n - i
  {
    if i < n {
      FromLength(n, i + 1);
      var m := n - i;
      assert (m - 1) * m + 2 * m == m * (m + 1);
    }
  }

  lemma {:induction false} FromMembers(n: nat, i: nat)
    requires i <= n
    ensures forall k :: 0 <= k < |From(n, i)| ==> i <= From(n, i)[k].0 <= From(n, i)[k].1 < n
    ensures forall a: nat, b: nat :: i <= a <= b < n ==> (a, b) in From(n, i)
    decreases n - i
  {
    if i < n {
      FromMembers(n, i + 1);
      var row, rest := Row(n, i), From(n, i + 1);
      assert From(n, i) == row + rest;
      forall a: nat, b: nat | i <= a <= b < n
        ensures (a, b) in From(n, i)
      {
        if a == i {
          assert row[b - i] == (a, b);
        } else {
          assert (a, b) in rest;
        }
      }
    }
  }

  lemma {:induction false} FromSorted(n: nat, i: nat)
    requires i <= n
    ensures forall a, b :: 0 <= a < b < |From(n, i)| ==> Before(From(n, i)[a], From(n, i)[b])
    decreases n - i
  {
    if i < n {
      FromSorted(n, i + 1);
      FromMembers(n, i + 1);
      var row, rest := Row(n, i), From(n, i + 1);
      var all := From(n, i);
      assert all == row + rest;
      forall a, b | 0 <= a < b < |all|
        ensures Before(all[a], all[b])
      {
        if b < |row| {
        } else if a < |row| {
          assert all[b] == rest[b - |row|];
        } else {
          assert all[a] == rest[a - |row|] && all[b] == rest[b - |row|];
        }
      }
    }
  }

  lemma {:induction false} FromAt(n: nat, r: nat, i: nat, j: nat)
    requires r <= i <= j < n
    ensures Offset(n, r) <= Offset(n, i)
    ensures Offset(n, i) - Offset(n, r) + (j - i) < |From(n, r)|
    ensures From(n, r)[Offset(n, i) - Offset(n, r) + (j - i)] == (i, j)
    decreases i - r
  {
    OffsetMonotone(n, r, i);
    if r == i {
      assert From(n, r)[j - i] == Row(n, i)[j - i];
    } else {
      FromAt(n, r + 1, i, j);
      var k := Offset(n, i) - Offset(n, r + 1) + (j - i);
      assert Offset(n, r + 1) == Offset(n, r) + (n - r);
      assert From(n, r) == Row(n, r) + From(n, r + 1);
      assert 0 <= k < |From(n, r + 1)|;
      assert From(n, r)[(n - r) + k] == From(n, r + 1)[k];
    }
  }

  lemma {:induction false} OffsetMonotone(n: nat, r: nat, i: nat)
    requires r <= i <= n
    ensures Offset(n, r) <= Offset(n, i)
    decreases i - r
  {
    if r < i {
      OffsetMonotone(n, r, i - 1);
    }
  }

  /** The triangle's index list has n(n+1)/2 entries, holds exactly the cells
      with i <= j < n, lists them strictly in row-major order and starts at
      (0, 0). Membership and strict order together pin the list down. */
  lemma IndicesSpec(n: nat)
    ensures |Indices(n)| == n * (n + 1) / 2
    ensures forall k :: 0 <= k < |Indices(n)| ==> Indices(n)[k].0 <= Indices(n)[k].1 < n
    ensures forall a: nat, b: nat :: a <= b < n ==> (a, b) in Indices(n)
    ensures forall a, b :: 0 <= a < b < |Indices(n)| ==> Before(Indices(n)[a], Indices(n)[b])
    ensures n >= 1 ==> Indices(n)[0] == (0, 0)
  {
    FromLength(n, 0);
    FromMembers(n, 0);
    FromSorted(n, 0);
    if n >= 1 {
      assert Indices(n)[0] == Row(n, 0)[0];
    }
  }

  /** Cell (i, j) sits at position i*n - i(i-1)/2 + (j - i) of the list. */
  lemma IndicesPosition(n: nat, i: nat, j: nat)
    requires i <= j < n
    ensures 2 * i * n - i * (i - 1) >= 0
    ensures (2 * i * n - i * (i - 1)) / 2 + (j - i) < |Indices(n)|
    ensures Indices(n)[(2 * i * n - i * (i - 1)) / 2 + (j - i)] == (i, j)
  {
    FromAt(n, 0, i, j);
    OffsetClosedForm(n, i);
  }
}
