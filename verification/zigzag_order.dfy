/**
 * The zig-zag scan of an n x n block (the JPEG scan order of ITU-T T.81,
 * section A.3.6, Figure A.6), given two ways:
 *  - ZigzagSpec, a reference definition: the anti-diagonals y + x = 0, 1, ...,
 *    2n - 2 one after another, even ones walked up and to the right (row
 *    descending) and odd ones down and to the left (row ascending);
 *  - GenZigzagOrder, the cursor walk of gen_zigzag_order, proved equal to it.
 * ZigzagIsPermutation and ZigzagRoundTrip prove the table is a bijection on
 * the slots 0 .. n * n - 1.
 */
module ZigzagOrder {
  import opened Types

  /** Row-major slot index of the pixel in row y, column x. */
  function Cell(n: nat, y: nat, x: nat): nat
  {
    y * n + x
  }

  /** Anti-diagonal that slot v lies on (row plus column). */
  function DiagonalOf(n: nat, v: nat): nat
    requires 1 <= n
  {
    v / n + v % n
  }

  /** Lowest row met on anti-diagonal s. */
  function Lo(n: nat, s: nat): nat
    requires 1 <= n
  {
    if s < n then 0 else s - (n - 1)
  }

  /** Highest row met on anti-diagonal s. */
  function Hi(n: nat, s: nat): nat
    requires 1 <= n
  {
    if s < n then s else n - 1
  }

  function DiagLen(n: nat, s: nat): nat
    requires 1 <= n && s <= 2 * n - 2
  {
    Hi(n, s) - Lo(n, s) + 1
  }

  /** Row of the j-th pixel visited on anti-diagonal s. */
  function Row(n: nat, s: nat, j: nat): nat
    requires 1 <= n && s <= 2 * n - 2 && j < DiagLen(n, s)
  {
    if s % 2 == 0 then Hi(n, s) - j else Lo(n, s) + j
  }

  /** The slots of anti-diagonal s in visiting order. */
  function Diag(n: nat, s: nat): seq<nat>
    requires 1 <= n && s <= 2 * n - 2
  {
    seq(DiagLen(n, s), j requires 0 <= j < DiagLen(n, s) => Cell(n, Row(n, s, j), s - Row(n, s, j)))
  }

  /** The anti-diagonals 0 .. s - 1 one after another. */
  function Scan(n: nat, s: nat): seq<nat>
    requires 1 <= n && s <= 2 * n - 1
  {
    if s == 0 then [] else Scan(n, s - 1) + Diag(n, s - 1)
  }

  /** Reference zig-zag order of an n x n block. */
  function ZigzagSpec(n: nat): seq<nat>
    requires 1 <= n
  {
    Scan(n, 2 * n - 1)
  }

  /** Position, within its anti-diagonal, of the pixel in row y, column x. */
  function PosInDiag(n: nat, y: nat, x: nat): nat
    requires y < n && x < n
  {
    var s := y + x;
    if s % 2 == 0 then Hi(n, s) - y else y - Lo(n, s)
  }

  // ---------------------------------------------------------------------
  // Arithmetic on row-major slot indices

  /** A pixel inside the block has a slot index below n * n. */
  lemma CellBound(n: nat, y: nat, x: nat)
    requires y < n && x < n
    ensures Cell(n, y, x) < n * n
  {
    MulLeft(y, n - 1, n);
    assert (n - 1) * n + n == n * n;
  }

  /** Row and column are recovered from a slot index by division and remainder. */
  lemma CellDivMod(n: nat, y: nat, x: nat)
    requires x < n
    ensures Cell(n, y, x) / n == y && Cell(n, y, x) % n == x
  {
    var v := Cell(n, y, x);
    var q, r := v / n, v % n;
    assert q * n + r == y * n + x;
    if q > y {
      MulLeft(y + 1, q, n);
    } else if q < y {
      MulLeft(q + 1, y, n);
    }
  }

  /** A slot below n * n lies in a row below n. */
  lemma DivBelow(n: nat, v: nat)
    requires 1 <= n && v < n * n
    ensures 0 <= v / n < n && 0 <= v % n < n && v == Cell(n, v / n, v % n)
  {
    if v / n >= n {
      MulLeft(n, v / n, n);
    }
  }

  // ---------------------------------------------------------------------
  // Facts about the reference order

  /** Every slot of anti-diagonal s is in the block, lies on diagonal s, and the row identifies it. */
  lemma DiagFacts(n: nat, s: nat)
    requires 1 <= n && s <= 2 * n - 2
    ensures forall j :: 0 <= j < DiagLen(n, s) ==>
      Diag(n, s)[j] < n * n && Diag(n, s)[j] / n == Row(n, s, j) && DiagonalOf(n, Diag(n, s)[j]) == s
  {
    forall j | 0 <= j < DiagLen(n, s)
      ensures Diag(n, s)[j] < n * n && Diag(n, s)[j] / n == Row(n, s, j) && DiagonalOf(n, Diag(n, s)[j]) == s
    {
      var y := Row(n, s, j);
      CellBound(n, y, s - y);
      CellDivMod(n, y, s - y);
    }
  }

  /** The diagonals 0 .. s - 1 hold distinct slots, all in the block and on a diagonal below s. */
  lemma {:induction false} ScanFacts(n: nat, s: nat)
    requires 1 <= n && s <= 2 * n - 1
    ensures forall k :: 0 <= k < |Scan(n, s)| ==> Scan(n, s)[k] < n * n && DiagonalOf(n, Scan(n, s)[k]) < s
    ensures forall i, k :: 0 <= i < k < |Scan(n, s)| ==> Scan(n, s)[i] != Scan(n, s)[k]
  {
    if s > 0 {
      ScanFacts(n, s - 1);
      DiagFacts(n, s - 1);
      var a, d := Scan(n, s - 1), Diag(n, s - 1);
      assert Scan(n, s) == a + d;
      forall i, k | 0 <= i < k < |d|
        ensures d[i] != d[k]
      {
        assert d[i] / n == Row(n, s - 1, i) && d[k] / n == Row(n, s - 1, k);
      }
      forall i, k | 0 <= i < |a| && 0 <= k < |d|
        ensures a[i] != d[k]
      {
        assert DiagonalOf(n, a[i]) < s - 1 == DiagonalOf(n, d[k]);
      }
    }
  }

  /** An earlier cut of the diagonal sequence is a prefix of a later one. */
  lemma {:induction false} ScanPrefix(n: nat, s: nat, t: nat)
    requires 1 <= n && s <= t <= 2 * n - 1
    ensures |Scan(n, s)| <= |Scan(n, t)|
    ensures forall i :: 0 <= i < |Scan(n, s)| ==> Scan(n, t)[i] == Scan(n, s)[i]
  {
    if s < t {
      ScanPrefix(n, s, t - 1);
    }
  }

  /** Appending anti-diagonal s puts its j-th slot at |Scan(n, s)| + j. */
  lemma ScanStep(n: nat, s: nat, j: nat)
    requires 1 <= n && s <= 2 * n - 2 && j < DiagLen(n, s)
    ensures |Scan(n, s)| + j < |Scan(n, s + 1)| && Scan(n, s + 1)[|Scan(n, s)| + j] == Diag(n, s)[j]
  {
  }

  /** Appending anti-diagonal s lengthens the sequence by its length. */
  lemma ScanLen(n: nat, s: nat)
    requires 1 <= n && s <= 2 * n - 2
    ensures |Scan(n, s + 1)| == |Scan(n, s)| + DiagLen(n, s)
  {
  }

  /** The j-th slot of anti-diagonal s is entry |Scan(n, s)| + j of every later cut. */
  lemma ScanAtCut(n: nat, s: nat, j: nat, t: nat)
    requires 1 <= n && s < t <= 2 * n - 1 && j < DiagLen(n, s)
    ensures |Scan(n, s)| + j < |Scan(n, t)| && Scan(n, t)[|Scan(n, s)| + j] == Diag(n, s)[j]
  {
    ScanStep(n, s, j);
    ScanPrefix(n, s + 1, t);
  }

  /** The j-th slot of anti-diagonal s is entry |Scan(n, s)| + j of the zig-zag order. */
  lemma ScanAt(n: nat, s: nat, j: nat)
    requires 1 <= n && s <= 2 * n - 2 && j < DiagLen(n, s)
    ensures |Scan(n, s)| + j < |ZigzagSpec(n)| && ZigzagSpec(n)[|Scan(n, s)| + j] == Diag(n, s)[j]
  {
    ScanAtCut(n, s, j, 2 * n - 1);
  }

  /** The order ends with the single slot of the last anti-diagonal. */
  lemma ScanLast(n: nat)
    requires 1 <= n
    ensures |ZigzagSpec(n)| == |Scan(n, 2 * n - 2)| + 1 && DiagLen(n, 2 * n - 2) == 1
  {
    assert Scan(n, 2 * n - 1) == Scan(n, 2 * n - 2) + Diag(n, 2 * n - 2);
  }

  /**
   * A move of the gen_zigzag_order cursor up and to the right, from the j-th
   * pixel of an even anti-diagonal s (not the last pixel of the block): at the
   * right edge it steps down and at the top edge right, either way onto the
   * first pixel of diagonal s + 1; elsewhere it reaches pixel j + 1 of s.
   */
  lemma CursorUp(n: nat, s: nat, j: nat)
    requires 1 <= n && s <= 2 * n - 2 && j < DiagLen(n, s) && s % 2 == 0
    requires |Scan(n, s)| + j + 1 < |ZigzagSpec(n)|
    ensures var y, x := Row(n, s, j), s - Row(n, s, j);
      && (x == n - 1 || y == 0 ==>
            && s + 1 <= 2 * n - 2 && (s + 1) % 2 == 1 && |Scan(n, s + 1)| == |Scan(n, s)| + j + 1
            && Row(n, s + 1, 0) == (if x == n - 1 then y + 1 else y))
      && (x != n - 1 && y != 0 ==> j + 1 < DiagLen(n, s) && Row(n, s, j + 1) == y - 1)
  {
    ScanLen(n, s);
    if s == 2 * n - 2 {
      ScanLast(n);
    }
  }

  /**
   * A move of the cursor down and to the left, from the j-th pixel of an odd
   * anti-diagonal s (not the last pixel of the block): at the bottom edge it
   * steps right and at the left edge down, either way onto the first pixel
   * of diagonal s + 1; elsewhere it reaches pixel j + 1 of s.
   */
  lemma CursorDown(n: nat, s: nat, j: nat)
    requires 1 <= n && s <= 2 * n - 2 && j < DiagLen(n, s) && s % 2 == 1
    requires |Scan(n, s)| + j + 1 < |ZigzagSpec(n)|
    ensures var y, x := Row(n, s, j), s - Row(n, s, j);
      && (y == n - 1 || x == 0 ==>
            && s + 1 <= 2 * n - 2 && (s + 1) % 2 == 0 && |Scan(n, s + 1)| == |Scan(n, s)| + j + 1
            && Row(n, s + 1, 0) == (if y == n - 1 then y else y + 1))
      && (y != n - 1 && x != 0 ==> j + 1 < DiagLen(n, s) && Row(n, s, j + 1) == y + 1)
  {
    ScanLen(n, s);
    if s == 2 * n - 2 {
      ScanLast(n);
    }
  }

  /** The pixel in row y, column x sits at position PosInDiag of its anti-diagonal. */
  lemma PosInDiagFinds(n: nat, y: nat, x: nat)
    requires y < n && x < n
    ensures y + x <= 2 * n - 2 && PosInDiag(n, y, x) < DiagLen(n, y + x)
    ensures Diag(n, y + x)[PosInDiag(n, y, x)] == Cell(n, y, x)
  {
    assert Row(n, y + x, PosInDiag(n, y, x)) == y;
  }

  /** Slot v sits in the order at position PosInDiag of its anti-diagonal, after the earlier diagonals. */
  lemma SlotFound(n: nat, v: nat)
    requires 1 <= n && v < n * n
    ensures 0 <= v / n < n && 0 <= v % n < n
    ensures |Scan(n, v / n + v % n)| + PosInDiag(n, v / n, v % n) < |ZigzagSpec(n)|
    ensures ZigzagSpec(n)[|Scan(n, v / n + v % n)| + PosInDiag(n, v / n, v % n)] == v
  {
    DivBelow(n, v);
    var y, x := v / n, v % n;
    PosInDiagFinds(n, y, x);
    ScanAt(n, y + x, PosInDiag(n, y, x));
  }

  function Elems(z: seq<nat>): set<nat>
  {
    set v | v in z
  }

  lemma {:induction false} DistinctCard(z: seq<nat>)
    requires forall i, k :: 0 <= i < k < |z| ==> z[i] != z[k]
    ensures |Elems(z)| == |z|
  {
    if z != [] {
      var rest := z[1..];
      DistinctCard(rest);
      assert z[0] !in Elems(rest);
      assert Elems(z) == Elems(rest) + {z[0]};
    }
  }

  /** The slots 0 .. m - 1 in increasing order. */
  function Iota(m: nat): seq<nat>
  {
    seq(m, i => i)
  }

  /** A repetition-free sequence of values below m that contains each of them has length m. */
  lemma CardFromCover(z: seq<nat>, m: nat)
    requires forall i, k :: 0 <= i < k < |z| ==> z[i] != z[k]
    requires forall k :: 0 <= k < |z| ==> z[k] < m
    requires forall v :: 0 <= v < m ==> v in z
    ensures |z| == m
  {
    var iota := Iota(m);
    forall v
      ensures v in z <==> v in iota
    {
      if 0 <= v < m {
        assert iota[v] == v;
      }
    }
    assert Elems(z) == Elems(iota);
    DistinctCard(z);
    DistinctCard(iota);
  }

  /** Every slot of the block occurs in the zig-zag order. */
  lemma ZigzagCovers(n: nat)
    requires 1 <= n
    ensures forall v :: 0 <= v < n * n ==> v in ZigzagSpec(n)
  {
    forall v | 0 <= v < n * n
      ensures v in ZigzagSpec(n)
    {
      SlotFound(n, v);
    }
  }

  /** The order visits the top-left slot first. */
  lemma ZigzagFirst(n: nat)
    requires 1 <= n
    ensures |ZigzagSpec(n)| >= 1 && ZigzagSpec(n)[0] == 0
  {
    ScanAt(n, 0, 0);
  }

  /** The last anti-diagonal holds only the bottom-right slot. */
  lemma LastDiag(n: nat)
    requires 1 <= n
    ensures DiagLen(n, 2 * n - 2) == 1 && Diag(n, 2 * n - 2)[0] == n * n - 1
  {
    assert Row(n, 2 * n - 2, 0) == n - 1;
    assert Cell(n, n - 1, n - 1) == n * n - 1;
  }

  /** The order visits the bottom-right slot last. */
  lemma ZigzagLast(n: nat)
    requires 1 <= n
    ensures |ZigzagSpec(n)| >= 1 && ZigzagSpec(n)[|ZigzagSpec(n)| - 1] == n * n - 1
  {
    ScanLast(n);
    LastDiag(n);
    ScanAt(n, 2 * n - 2, 0);
  }

  /**
   * The zig-zag order is a permutation of the slots: it has n * n entries, all
   * below n * n and pairwise distinct, so every slot appears exactly once; it
   * starts at slot 0 (top-left) and ends at slot n * n - 1 (bottom-right).
   */
  lemma ZigzagIsPermutation(n: nat)
    requires 1 <= n
    ensures |ZigzagSpec(n)| == n * n
    ensures forall k :: 0 <= k < n * n ==> ZigzagSpec(n)[k] < n * n
    ensures forall i, k :: 0 <= i < k < n * n ==> ZigzagSpec(n)[i] != ZigzagSpec(n)[k]
    ensures forall v :: 0 <= v < n * n ==> v in ZigzagSpec(n)
    ensures ZigzagSpec(n)[0] == 0 && ZigzagSpec(n)[n * n - 1] == n * n - 1
  {
    ScanFacts(n, 2 * n - 1);
    ZigzagCovers(n);
    CardFromCover(ZigzagSpec(n), n * n);
    ZigzagFirst(n);
    ZigzagLast(n);
  }

  /** The order has one entry per slot. */
  lemma ZigzagLength(n: nat)
    requires 1 <= n
    ensures |ZigzagSpec(n)| == n * n
  {
    ZigzagIsPermutation(n);
  }

  /** Position of slot v in the zig-zag order: the inverse table. */
  function RankOf(n: nat, v: nat): (r: nat)
    requires 1 <= n && v < n * n
    ensures r < |ZigzagSpec(n)| && ZigzagSpec(n)[r] == v
    ensures r < n * n
  {
    SlotFound(n, v);
    ZigzagLength(n);
    |Scan(n, v / n + v % n)| + PosInDiag(n, v / n, v % n)
  }

  /** Position k of the order holds the slot whose rank is k. */
  lemma LookupThenRank(n: nat, k: nat)
    requires 1 <= n && k < n * n
    ensures |ZigzagSpec(n)| == n * n && ZigzagSpec(n)[k] < n * n && RankOf(n, ZigzagSpec(n)[k]) == k
  {
    ZigzagIsPermutation(n);
    var z := ZigzagSpec(n);
    var r := RankOf(n, z[k]);
    assert z[r] == z[k];
  }

  /** Slot index and zig-zag position convert into each other both ways. */
  lemma ZigzagRoundTrip(n: nat)
    requires 1 <= n
    ensures |ZigzagSpec(n)| == n * n
    ensures forall v :: 0 <= v < n * n ==> RankOf(n, v) < n * n && ZigzagSpec(n)[RankOf(n, v)] == v
    ensures forall k :: 0 <= k < n * n ==> ZigzagSpec(n)[k] < n * n && RankOf(n, ZigzagSpec(n)[k]) == k
  {
    ZigzagIsPermutation(n);
    forall k | 0 <= k < n * n
      ensures ZigzagSpec(n)[k] < n * n && RankOf(n, ZigzagSpec(n)[k]) == k
    {
      LookupThenRank(n, k);
    }
  }

  // ---------------------------------------------------------------------
  // gen_zigzag_order

  /**
   * Builds the zig-zag table for a BLOCK_SIZE_BIG block: a cursor (y, x) starts
   * at the top-left pixel moving up and to the right, flips direction whenever
   * it meets an edge, and the row-major index of every pixel it visits is
   * written to the next entry until all Slots entries are written. Every entry
   * fits a u16, so the cast in the source never truncates.
   */
  method GenZigzagOrder() returns (order: seq<U16>)
    ensures order == ZigzagSpec(BlockSizeBig)
  {
    var n: nat := BlockSizeBig;
    SlotsBounds();
    ZigzagLength(n);
    var table := new U16[n * n](_ => 0);
    var idx := 0;
    var up := true;
    var y: nat, x: nat := 0, 0;
    // The cursor is the j-th pixel of anti-diagonal s.
    ghost var s: nat, j: nat := 0, 0;
    while true
      invariant s <= 2 * n - 2 && j < DiagLen(n, s)
      invariant y == Row(n, s, j) && x == s - y
      invariant up == (s % 2 == 0)
      invariant idx == |Scan(n, s)| + j < n * n
      invariant forall k :: 0 <= k < idx ==> table[k] == ZigzagSpec(n)[k]
      decreases n * n - idx
    {
      ScanAt(n, s, j);
      CellBound(n, y, x);
      table[idx] := (y * n + x) as U16;
      idx := idx + 1;

      if idx == n * n {
        break;
      }
      y, x, up, s, j := Advance(n, y, x, up, s, j);
    }
    order := table[..];
    SameEntries(order, ZigzagSpec(n));
  }

  /**
   * The cursor move of gen_zigzag_order: from the j-th pixel of anti-diagonal
   * s, heading up and to the right on even diagonals and down and to the left
   * on odd ones, it turns at the block's edges and reaches the next pixel of
   * the reference order.
   */
  method Advance(n: nat, y: nat, x: nat, up: bool, ghost s: nat, ghost j: nat)
    returns (y': nat, x': nat, up': bool, ghost s': nat, ghost j': nat)
    requires 1 <= n && s <= 2 * n - 2 && j < DiagLen(n, s)
    requires |Scan(n, s)| + j + 1 < |ZigzagSpec(n)|
    requires y == Row(n, s, j) && x == s - y && up == (s % 2 == 0)
    ensures s' <= 2 * n - 2 && j' < DiagLen(n, s') && |Scan(n, s')| + j' == |Scan(n, s)| + j + 1
    ensures y' == Row(n, s', j') && x' == s' - y' && up' == (s' % 2 == 0)
    ensures y' < n && x' < n && ZigzagSpec(n)[|Scan(n, s)| + j + 1] == Cell(n, y', x')
  {
    y', x', up' := y, x, up;
    s', j' := s, j + 1;
    if up {
      CursorUp(n, s, j);
      if x == n - 1 {
        y' := y + 1;
        up' := false;
        s', j' := s + 1, 0;
      } else if y == 0 {
        x' := x + 1;
        up' := false;
        s', j' := s + 1, 0;
      } else {
        x' := x + 1;
        y' := y - 1;
      }
    } else {
      CursorDown(n, s, j);
      if y == n - 1 {
        x' := x + 1;
        up' := true;
        s', j' := s + 1, 0;
      } else if x == 0 {
        y' := y + 1;
        up' := true;
        s', j' := s + 1, 0;
      } else {
        x' := x - 1;
        y' := y + 1;
      }
    }
    ScanAt(n, s', j');
  }

  /** Two sequences with the same length and the same entries are equal. */
  lemma SameEntries(a: seq<int>, b: seq<int>)
    requires |a| == |b| && forall k :: 0 <= k < |a| ==> a[k] == b[k]
    ensures a == b
  {
  }
}
