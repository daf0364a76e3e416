/**
 * The coordinate enumerator `betweenPoints`: every chunk of the rectangle
 * [x1, x2] x [z1, z2], visited 3x3 residue class by residue class.
 */
module Enumerator {
  import opened Common

  /** The interleaving stride `$k`. */
  const K: int := 3

  /** PHP's `$a % $k`: the remainder takes the sign of the dividend. */
  function PhpRem(a: int): (r: int)
    ensures a >= 0 ==> 0 <= r < K
    ensures a < 0 ==> -K < r <= 0
    ensures (a - r) % K == 0
  {
    if a >= 0 then a % K else -((-a) % K)
  }

  /** Two integers differ by a multiple of K exactly when they share a residue. */
  lemma SameResidue(a: int, b: int)
    ensures (a - b) % K == 0 <==> a % K == b % K
  {
    assert a == K * (a / K) + a % K;
    assert b == K * (b / K) + b % K;
    assert a - b == K * (a / K - b / K) + (a % K - b % K);
    if a % K == b % K {
      assert (a - b) % K == (K * (a / K - b / K)) % K;
    } else {
      var d := a % K - b % K;
      assert -K < d < K && d != 0;
      assert (a - b) % K == (if d < 0 then d + K else d);
    }
  }

  /** `($v % $k + $k) % $k`: the class of v modulo K, even for negative v. */
  function MinMod(v: int): (r: int)
    ensures r == v % K
  {
    PhpRem(PhpRem(v) + K)
  }

  /** The first coordinate at or after `lo` in residue class `offset`:
      `$lo + (($offset - $min_mod + $k) % $k)`. */
  function ClassStart(lo: int, offset: int): (r: int)
    requires 0 <= offset < K
    ensures lo <= r < lo + K
    ensures r % K == offset
  {
    var d := offset - MinMod(lo) + K;
    assert 0 < d < 2 * K;
    var q := PhpRem(d);
    assert q == if d >= K then d - K else d;
    var base := lo - lo % K;
    assert base % K == 0 by {
      SameResidue(lo, lo % K);
    }
    assert lo + q == base + (if d >= K then offset else offset + K);
    ShiftResidue(base, offset);
    lo + q
  }

  /** Adding an offset below 2K to a multiple of K lands in the offset's class. */
  lemma ShiftResidue(base: int, offset: int)
    requires base % K == 0 && 0 <= offset < K
    ensures (base + offset) % K == offset && (base + offset + K) % K == offset
  {
    assert base == K * (base / K);
    assert base + offset == K * (base / K) + offset;
    assert base + offset + K == K * (base / K + 1) + offset;
  }

  /** The point lies in the closed rectangle. */
  predicate InRect(p: Point, x1: int, x2: int, z1: int, z2: int) {
    x1 <= p.x <= x2 && z1 <= p.z <= z2
  }

  /** Which of the nine passes visits p: `3 * offset_x + offset_z`. */
  function ClassOf(p: Point): (c: int)
    ensures 0 <= c < K * K
  {
    K * (p.x % K) + p.z % K
  }

  /** s lists its points in the order `before`. */
  predicate SortedBy(s: seq<Point>, before: (Point, Point) -> bool) {
    forall i, j :: 0 <= i < j < |s| ==> before(s[i], s[j])
  }

  /** The order of the two inner loops: row by row in z, along each row in x. */
  predicate ScanBefore(p: Point, q: Point) {
    p.z < q.z || (p.z == q.z && p.x < q.x)
  }

  /** The order `betweenPoints` yields points in: by pass, then as the pass scans. */
  predicate Precedes(p: Point, q: Point) {
    ClassOf(p) < ClassOf(q) || (ClassOf(p) == ClassOf(q) && ScanBefore(p, q))
  }

  /** Two sorted sequences, every element of the first before every element
      of the second, concatenate to a sorted sequence. */
  lemma SortedConcat(a: seq<Point>, b: seq<Point>, before: (Point, Point) -> bool)
    requires SortedBy(a, before) && SortedBy(b, before)
    requires forall i, j :: 0 <= i < |a| && 0 <= j < |b| ==> before(a[i], b[j])
    ensures SortedBy(a + b, before)
  {
    forall i, j | 0 <= i < j < |a + b| ensures before((a + b)[i], (a + b)[j]) {
      if j < |a| {
        assert (a + b)[i] == a[i] && (a + b)[j] == a[j];
      } else if i < |a| {
        assert (a + b)[i] == a[i] && (a + b)[j] == b[j - |a|];
      } else {
        assert (a + b)[i] == b[i - |a|] && (a + b)[j] == b[j - |a|];
      }
    }
  }

  /** The innermost loop: `for($x = $x_start; $x <= $x2; $x += $k)` at a fixed z. */
  function Row(x: int, x2: int, z: int): (r: seq<Point>)
    ensures forall p :: p in r <==> p.z == z && x <= p.x <= x2 && (p.x - x) % K == 0
    ensures Distinct(r)
    decreases x2 - x
  {
    if x > x2 then []
    else
      var rest := Row(x + K, x2, z);
      assert Point(x, z) !in rest;
      DistinctConcat([Point(x, z)], rest);
      [Point(x, z)] + rest
  }

  /** The innermost loop visits its row in increasing x. */
  lemma {:induction false} RowSorted(x: int, x2: int, z: int)
    ensures SortedBy(Row(x, x2, z), ScanBefore)
    decreases x2 - x
  {
    if x <= x2 {
      var rest := Row(x + K, x2, z);
      RowSorted(x + K, x2, z);
      assert forall j :: 0 <= j < |rest| ==> rest[j] in rest;
      SortedConcat([Point(x, z)], rest, ScanBefore);
    }
  }

  /** A row at z, followed by sorted rows beyond z, is in scan order. */
  lemma RowThenRest(row: seq<Point>, rest: seq<Point>, z: int)
    requires SortedBy(row, ScanBefore) && SortedBy(rest, ScanBefore)
    requires forall p :: p in row ==> p.z == z
    requires forall p :: p in rest ==> p.z > z
    ensures SortedBy(row + rest, ScanBefore)
  {
    forall i, j | 0 <= i < |row| && 0 <= j < |rest| ensures ScanBefore(row[i], rest[j]) {
      assert row[i] in row && rest[j] in rest;
    }
    SortedConcat(row, rest, ScanBefore);
  }

  /** The two inner loops: rows `z = zs, zs + 3, ...` up to z2, each a `Row`. */
  function Block(xs: int, x2: int, zs: int, z2: int): (r: seq<Point>)
    ensures forall p :: p in r <==>
      xs <= p.x <= x2 && (p.x - xs) % K == 0 && zs <= p.z <= z2 && (p.z - zs) % K == 0
    ensures Distinct(r)
    decreases z2 - zs
  {
    if zs > z2 then []
    else
      var row := Row(xs, x2, zs);
      var rest := Block(xs, x2, zs + K, z2);
      assert forall p :: p in row + rest <==>
        xs <= p.x <= x2 && (p.x - xs) % K == 0 && zs <= p.z <= z2 && (p.z - zs) % K == 0 by {
        forall p ensures p in row + rest <==>
          xs <= p.x <= x2 && (p.x - xs) % K == 0 && zs <= p.z <= z2 && (p.z - zs) % K == 0 {
          NextRow(zs, p.z);
        }
      }
      DistinctConcat(row, rest);
      row + rest
  }

  /** The two inner loops visit their block row by row in increasing z, and
      each row in increasing x. */
  lemma {:induction false} BlockSorted(xs: int, x2: int, zs: int, z2: int)
    ensures SortedBy(Block(xs, x2, zs, z2), ScanBefore)
    decreases z2 - zs
  {
    if zs <= z2 {
      RowSorted(xs, x2, zs);
      BlockSorted(xs, x2, zs + K, z2);
      RowThenRest(Row(xs, x2, zs), Block(xs, x2, zs + K, z2), zs);
    }
  }

  /** A coordinate a multiple of K past zs is zs itself, or a multiple of K
      past zs + K. */
  lemma NextRow(zs: int, z: int)
    ensures zs <= z && (z - zs) % K == 0 <==> z == zs || (zs + K <= z && (z - (zs + K)) % K == 0)
  {
    assert z - zs == (z - (zs + K)) + K;
    assert (z - (zs + K)) % K == (z - zs) % K;
    if zs < z < zs + K {
      assert (z - zs) % K == z - zs;
    }
  }

  /** The block of pass c is exactly the rectangle's points of class c. */
  lemma BlockIsClass(x1: int, x2: int, z1: int, z2: int, c: int, p: Point)
    requires 0 <= c < K * K
    ensures p in Block(ClassStart(x1, c / K), x2, ClassStart(z1, c % K), z2)
        <==> InRect(p, x1, x2, z1, z2) && ClassOf(p) == c
  {
    LatticeIsClass(x1, x2, z1, z2, ClassStart(x1, c / K), ClassStart(z1, c % K), c, p);
  }

  /** The lattice from the first coordinates of class c is the class itself. */
  lemma LatticeIsClass(x1: int, x2: int, z1: int, z2: int, xs: int, zs: int, c: int, p: Point)
    requires 0 <= c < K * K
    requires x1 <= xs < x1 + K && xs % K == c / K
    requires z1 <= zs < z1 + K && zs % K == c % K
    ensures xs <= p.x <= x2 && (p.x - xs) % K == 0 && zs <= p.z <= z2 && (p.z - zs) % K == 0
        <==> InRect(p, x1, x2, z1, z2) && ClassOf(p) == c
  {
    FirstInClass(x1, xs, p.x);
    FirstInClass(z1, zs, p.z);
    ClassDigits(p, c);
  }

  /** When s is within K of lo, the coordinates a multiple of K past s are
      exactly those at or after lo in the class of s. */
  lemma FirstInClass(lo: int, s: int, v: int)
    requires lo <= s < lo + K
    ensures s <= v && (v - s) % K == 0 <==> lo <= v && v % K == s % K
  {
    SameResidue(v, s);
    if lo <= v < s {
      assert 0 < s - v < K;
      assert (s - v) % K == s - v;
      SameResidue(s, v);
    }
  }

  /** A class number is the two residues written in base K. */
  lemma ClassDigits(p: Point, c: int)
    requires 0 <= c < K * K
    ensures ClassOf(p) == c <==> p.x % K == c / K && p.z % K == c % K
  {
    var a := p.x % K;
    var b := p.z % K;
    assert c == K * (c / K) + c % K;
    assert 0 <= c / K < K;
    if K * a + b == c {
      assert K * (a - c / K) == c % K - b;
      assert -K < c % K - b < K;
    }
  }

  /** The two outer loops, flattened: passes c, c + 1, ..., 8, with
      `offset_x = c / 3` outer and `offset_z = c % 3` inner. */
  function Passes(x1: int, x2: int, z1: int, z2: int, c: int): (r: seq<Point>)
    requires 0 <= c <= K * K
    ensures forall p :: p in r <==> InRect(p, x1, x2, z1, z2) && ClassOf(p) >= c
    ensures Distinct(r)
    decreases K * K - c
  {
    if c == K * K then []
    else
      var block := Block(ClassStart(x1, c / K), x2, ClassStart(z1, c % K), z2);
      var rest := Passes(x1, x2, z1, z2, c + 1);
      forall p ensures p in block <==> InRect(p, x1, x2, z1, z2) && ClassOf(p) == c {
        BlockIsClass(x1, x2, z1, z2, c, p);
      }
      DistinctConcat(block, rest);
      block + rest
  }

  /** A scan-ordered pass of class c, followed by a sorted run of later
      classes, is sorted. */
  lemma ClassThenRest(block: seq<Point>, rest: seq<Point>, c: int)
    requires SortedBy(block, ScanBefore) && SortedBy(rest, Precedes)
    requires forall p :: p in block ==> ClassOf(p) == c
    requires forall p :: p in rest ==> ClassOf(p) > c
    ensures SortedBy(block + rest, Precedes)
  {
    forall i, j | 0 <= i < j < |block| ensures Precedes(block[i], block[j]) {
      assert block[i] in block && block[j] in block;
    }
    forall i, j | 0 <= i < |block| && 0 <= j < |rest| ensures Precedes(block[i], rest[j]) {
      assert block[i] in block && rest[j] in rest;
    }
    SortedConcat(block, rest, Precedes);
  }

  /** Passes c to 8 yield their points pass by pass, each pass in scan order. */
  lemma {:induction false} PassesSorted(x1: int, x2: int, z1: int, z2: int, c: int)
    requires 0 <= c <= K * K
    ensures SortedBy(Passes(x1, x2, z1, z2, c), Precedes)
    decreases K * K - c
  {
    if c < K * K {
      var xs, zs := ClassStart(x1, c / K), ClassStart(z1, c % K);
      var block := Block(xs, x2, zs, z2);
      var rest := Passes(x1, x2, z1, z2, c + 1);
      BlockSorted(xs, x2, zs, z2);
      PassesSorted(x1, x2, z1, z2, c + 1);
      forall p | p in block ensures ClassOf(p) == c {
        BlockIsClass(x1, x2, z1, z2, c, p);
      }
      ClassThenRest(block, rest, c);
      assert Passes(x1, x2, z1, z2, c) == block + rest;
    }
  }

  /** `betweenPoints($x1, $x2, $z1, $z2)`. The PHP generator raises its
      validation error on first use; here the error is the result. */
  function BetweenPoints(x1: int, x2: int, z1: int, z2: int): (r: Result<seq<Point>, ArgError>)
    ensures x2 < x1 ==> r == Failure(XRange(x1, x2))
    ensures x1 <= x2 && z2 < z1 ==> r == Failure(ZRange(z1, z2))
    ensures r.Success? <==> x1 <= x2 && z1 <= z2
    ensures r.Success? ==> Distinct(r.value)
    ensures r.Success? ==> forall p :: p in r.value <==> InRect(p, x1, x2, z1, z2)
  {
    if x2 < x1 then Failure(XRange(x1, x2))
    else if z2 < z1 then Failure(ZRange(z1, z2))
    else Success(Passes(x1, x2, z1, z2, 0))
  }

  /** A valid rectangle is enumerated in the nine-pass order: by residue class
      `3 * (x mod 3) + (z mod 3)`, then by z, then by x. */
  lemma BetweenPointsSorted(x1: int, x2: int, z1: int, z2: int)
    requires x1 <= x2 && z1 <= z2
    ensures BetweenPoints(x1, x2, z1, z2).Success?
    ensures SortedBy(BetweenPoints(x1, x2, z1, z2).value, Precedes)
  {
    PassesSorted(x1, x2, z1, z2, 0);
  }

  /** The number of chunks `generateChunksBetween` announces:
      `(1 + ($x2 - $x1)) * (1 + ($z2 - $z1))`. */
  function ChunkCount(x1: int, x2: int, z1: int, z2: int): (n: int)
    ensures x1 <= x2 && z1 <= z2 ==> n > 0 && n == |RowMajor(x1, x2, z1, z2)|
  {
    var n := (1 + (x2 - x1)) * (1 + (z2 - z1));
    if x1 <= x2 && z1 <= z2 then
      RectArea(x1, x2, z1, z2);
      n
    else
      n
  }

  /** A valid rectangle's width times height is positive and counts its
      row-major enumeration. */
  lemma RectArea(x1: int, x2: int, z1: int, z2: int)
    requires x1 <= x2 && z1 <= z2
    ensures (1 + (x2 - x1)) * (1 + (z2 - z1)) > 0
    ensures |RowMajor(x1, x2, z1, z2)| == (1 + (x2 - x1)) * (1 + (z2 - z1))
  {
    var w, h := 1 + (x2 - x1), 1 + (z2 - z1);
    assert w > 0 && h > 0;
    assert w * h >= w;
  }

  /** Reference enumeration: the rectangle in plain row-major order. */
  function Line(x: int, x2: int, z: int): (r: seq<Point>)
    ensures forall p :: p in r <==> p.z == z && x <= p.x <= x2
    ensures Distinct(r)
    ensures |r| == if x > x2 then 0 else x2 - x + 1
    decreases x2 - x
  {
    if x > x2 then []
    else
      var rest := Line(x + 1, x2, z);
      DistinctConcat([Point(x, z)], rest);
      [Point(x, z)] + rest
  }

  function RowMajor(x1: int, x2: int, z: int, z2: int): (r: seq<Point>)
    requires x1 <= x2
    ensures forall p :: p in r <==> InRect(p, x1, x2, z, z2)
    ensures Distinct(r)
    ensures |r| == if z > z2 then 0 else (1 + (x2 - x1)) * (1 + (z2 - z))
    decreases z2 - z
  {
    if z > z2 then []
    else
      var line := Line(x1, x2, z);
      var rest := RowMajor(x1, x2, z + 1, z2);
      DistinctConcat(line, rest);
      line + rest
  }

  /** For a valid rectangle the interleaved enumeration is a permutation of the
      row-major one, so it holds every chunk exactly once and exactly as many
      chunks as `generateChunksBetween` reports. */
  lemma BetweenPointsIsPermutation(x1: int, x2: int, z1: int, z2: int)
    requires x1 <= x2 && z1 <= z2
    ensures BetweenPoints(x1, x2, z1, z2).Success?
    ensures multiset(BetweenPoints(x1, x2, z1, z2).value) == multiset(RowMajor(x1, x2, z1, z2))
    ensures |BetweenPoints(x1, x2, z1, z2).value| == ChunkCount(x1, x2, z1, z2)
  {
    var out := BetweenPoints(x1, x2, z1, z2).value;
    var ref := RowMajor(x1, x2, z1, z2);
    SameMembersPermutation(out, ref);
  }
}
