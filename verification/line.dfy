/**
 * The line merge of the 2048 engine (`mergeRow` in script.js), as functions on one line,
 * and what it promises: the merged line has exactly gridSize entries, its tiles are packed
 * to the front, it keeps the total of the tiles, merging is a single pass, and powers of two
 * stay powers of two.
 *
 * A line is read front to back; the caller reverses rows or columns for the other
 * directions (module Board).
 */
module Line {

  /** x is 2^k for some k >= 0. */
  predicate IsPow2(x: int)
    decreases if x > 0 then x else 0
  {
    x == 1 || (x > 1 && x % 2 == 0 && IsPow2(x / 2))
  }

  /** A cell value: 0 for an empty cell, otherwise a power of two that is at least 2. */
  predicate IsTile(x: int) {
    x == 0 || (x >= 2 && IsPow2(x))
  }

  predicate AllTiles(s: seq<int>) {
    forall k :: 0 <= k < |s| ==> IsTile(s[k])
  }

  predicate NoZeros(s: seq<int>) {
    forall k :: 0 <= k < |s| ==> s[k] != 0
  }

  predicate AllPositive(s: seq<int>) {
    forall k :: 0 <= k < |s| ==> s[k] > 0
  }

  /** Every zero comes after every non-zero entry. */
  predicate Packed(s: seq<int>) {
    forall i, j :: 0 <= i < j < |s| && s[i] == 0 ==> s[j] == 0
  }

  /** No two neighbouring entries are equal. */
  predicate NoEqualPair(c: seq<int>) {
    forall k :: 0 <= k < |c| - 1 ==> c[k] != c[k + 1]
  }

  /** A line that a move leaves as it is: packed, and no tile has an equal right neighbour. */
  predicate Settled(row: seq<int>) {
    Packed(row) && forall k :: 0 <= k < |row| - 1 && row[k] != 0 ==> row[k] != row[k + 1]
  }

  function Sum(s: seq<int>): int {
    if |s| == 0 then 0 else s[0] + Sum(s[1..])
  }

  function Zeros(m: nat): seq<int> {
    seq(m, _ => 0)
  }

  /** The non-zero entries of s, in order: the source's `filter(cell => cell !== 0)`. */
  function Compact(s: seq<int>): (r: seq<int>)
    ensures |r| <= |s|
    ensures NoZeros(r)
  {
    if |s| == 0 then [] else (if s[0] != 0 then [s[0]] else []) + Compact(s[1..])
  }

  /**
   * The merge pass on a line without zeros: scanning from the front, a tile equal to its
   * right neighbour becomes twice its value and the neighbour is consumed; the scan goes on
   * after the consumed pair, so a merged tile is never merged again in the same pass.
   */
  function Combine(c: seq<int>): (r: seq<int>)
    ensures |r| <= |c| <= 2 * |r|
    ensures NoZeros(c) ==> NoZeros(r)
  {
    if |c| < 2 then c
    else if c[0] == c[1] then [2 * c[0]] + Combine(c[2..])
    else [c[0]] + Combine(c[1..])
  }

  /** The sum of the tiles that Combine creates by merging: what the pass adds to the score. */
  function CombineGain(c: seq<int>): (p: int)
    ensures p != 0 ==> |Combine(c)| < |c|
    ensures AllPositive(c) ==> p >= 0
  {
    if |c| < 2 then 0
    else if c[0] == c[1] then 2 * c[0] + CombineGain(c[2..])
    else CombineGain(c[1..])
  }

  /** s followed by zeros up to length n (the source's closing `while (length < gridSize) push(0)`). */
  function Pad(s: seq<int>, n: nat): (r: seq<int>)
    ensures |s| <= n ==> |r| == n
    ensures |s| >= n ==> r == s
  {
    if |s| < n then s + Zeros(n - |s|) else s
  }

  /** The line `mergeRow` returns for `row` when the grid side is n. */
  function MergedRow(row: seq<int>, n: nat): (r: seq<int>)
    ensures |row| <= n ==> |r| == n
  {
    Pad(Combine(Compact(row)), n)
  }

  /** How much `mergeRow` adds to the score for `row`. */
  function RowGain(row: seq<int>): (p: int)
    ensures AllTiles(row) ==> p >= 0
  {
    CompactKeepsTiles(row);
    CombineGain(Compact(row))
  }

  // ---------------------------------------------------------------------------------------
  // Compact

  lemma {:induction false} CompactAppend(a: seq<int>, b: seq<int>)
    ensures Compact(a + b) == Compact(a) + Compact(b)
  {
    if a == [] {
      assert a + b == b;
    } else {
      assert (a + b)[1..] == a[1..] + b;
      CompactAppend(a[1..], b);
    }
  }

  /** Compact removes only zeros: a line that has none is its own compaction, and only such a line is. */
  lemma {:induction false} CompactKeepsNonZeroLine(s: seq<int>)
    ensures Compact(s) == s <==> NoZeros(s)
    ensures |Compact(s)| == |s| ==> Compact(s) == s
  {
    if s != [] {
      CompactKeepsNonZeroLine(s[1..]);
      assert s == [s[0]] + s[1..];
    }
  }

  lemma {:induction false} CompactZeros(m: nat)
    ensures Compact(Zeros(m)) == []
  {
    if m > 0 {
      assert Zeros(m)[1..] == Zeros(m - 1);
      CompactZeros(m - 1);
    }
  }

  lemma {:induction false} SumAppend(a: seq<int>, b: seq<int>)
    ensures Sum(a + b) == Sum(a) + Sum(b)
  {
    if a == [] {
      assert a + b == b;
    } else {
      assert (a + b)[1..] == a[1..] + b;
      SumAppend(a[1..], b);
    }
  }

  lemma {:induction false} SumZeros(m: nat)
    ensures Sum(Zeros(m)) == 0
  {
    if m > 0 {
      assert Zeros(m)[1..] == Zeros(m - 1);
      SumZeros(m - 1);
    }
  }

  /** Dropping zeros keeps the tile total, keeps tiles tiles, and leaves only positive tiles. */
  lemma {:induction false} CompactKeepsTiles(s: seq<int>)
    ensures Sum(Compact(s)) == Sum(s)
    ensures AllTiles(s) ==> AllPositive(Compact(s)) && AllTiles(Compact(s))
  {
    if s != [] {
      CompactKeepsTiles(s[1..]);
      var head := if s[0] != 0 then [s[0]] else [];
      SumAppend(head, Compact(s[1..]));
      if AllTiles(s) {
        assert AllTiles(s[1..]) by {
          forall k | 0 <= k < |s| - 1 ensures IsTile(s[1..][k]) { assert s[1..][k] == s[k + 1]; }
        }
        assert IsTile(s[0]);
      }
    }
  }

  /** A packed line is its tiles followed by zeros. */
  lemma {:induction false} PackedSplit(s: seq<int>)
    requires Packed(s)
    ensures s == Compact(s) + Zeros(|s| - |Compact(s)|)
  {
    if s != [] {
      if s[0] == 0 {
        assert forall j :: 0 < j < |s| ==> s[j] == 0;
        assert s == Zeros(|s|);
        CompactZeros(|s|);
      } else {
        assert Packed(s[1..]) by {
          forall i, j | 0 <= i < j < |s| - 1 && s[1..][i] == 0 ensures s[1..][j] == 0 {
            assert s[i + 1] == 0;
          }
        }
        PackedSplit(s[1..]);
        assert s == [s[0]] + s[1..];
      }
    }
  }

  // ---------------------------------------------------------------------------------------
  // Combine

  /** The merge pass keeps the tile total: each merge doubles one tile and consumes its neighbour. */
  lemma {:induction false} CombineConserves(c: seq<int>)
    ensures Sum(Combine(c)) == Sum(c)
  {
    if |c| >= 2 {
      if c[0] == c[1] {
        CombineConserves(c[2..]);
        assert c[1..][1..] == c[2..];
      } else {
        CombineConserves(c[1..]);
      }
    }
  }

  lemma DoublePow2(x: int)
    requires IsPow2(x)
    ensures IsPow2(2 * x)
  {
    assert (2 * x) / 2 == x;
  }

  /** Merging powers of two yields powers of two of at least 2. */
  lemma {:induction false} CombineKeepsPowers(c: seq<int>)
    requires AllPositive(c) && AllTiles(c)
    ensures AllPositive(Combine(c)) && AllTiles(Combine(c))
  {
    if |c| >= 2 {
      if c[0] == c[1] {
        CombineKeepsPowers(c[2..]);
        DoublePow2(c[0]);
      } else {
        CombineKeepsPowers(c[1..]);
      }
    }
  }

  /** The merge pass changes a line exactly when the line has two equal neighbours, and then it shortens it. */
  lemma {:induction false} CombineFixedIff(c: seq<int>)
    ensures Combine(c) == c <==> NoEqualPair(c)
    ensures |Combine(c)| == |c| <==> NoEqualPair(c)
  {
    if |c| >= 2 {
      if c[0] == c[1] {
        assert |Combine(c)| < |c|;
      } else {
        CombineFixedIff(c[1..]);
        assert c == [c[0]] + c[1..];
        if NoEqualPair(c[1..]) {
          assert NoEqualPair(c) by {
            forall k | 0 <= k < |c| - 1 ensures c[k] != c[k + 1] {
              if k > 0 { assert c[k] == c[1..][k - 1] && c[k + 1] == c[1..][k]; }
            }
          }
        } else {
          assert !NoEqualPair(c) by {
            var k :| 0 <= k < |c| - 2 && c[1..][k] == c[1..][k + 1];
            assert c[k + 1] == c[k + 2];
          }
        }
      }
    }
  }

  /**
   * The score gain of the pass: it is non-zero only if a merge happened (the line got shorter);
   * on positive tiles it is never negative, is zero exactly when nothing merges, and never
   * exceeds the line's total.
   */
  lemma {:induction false} CombineGainBounds(c: seq<int>)
    ensures CombineGain(c) != 0 ==> |Combine(c)| < |c|
    ensures AllPositive(c) ==> 0 <= CombineGain(c) <= Sum(c)
    ensures AllPositive(c) ==> (CombineGain(c) == 0 <==> NoEqualPair(c))
  {
    CombineFixedIff(c);
    if |c| >= 2 {
      assert c[1..][1..] == c[2..];
      if c[0] == c[1] {
        CombineGainBounds(c[2..]);
        if AllPositive(c) {
          assert AllPositive(c[2..]) by {
            forall k | 0 <= k < |c| - 2 ensures c[2..][k] > 0 { assert c[2..][k] == c[k + 2]; }
          }
          assert Sum(c) == c[0] + c[1] + Sum(c[2..]);
        }
      } else {
        CombineGainBounds(c[1..]);
        if AllPositive(c) {
          assert AllPositive(c[1..]) by {
            forall k | 0 <= k < |c| - 1 ensures c[1..][k] > 0 { assert c[1..][k] == c[k + 1]; }
          }
        }
      }
    }
  }

  /**
   * The single-pass rule: on a line p + [x, x] + r whose first equal pair is the x, x after
   * p, the tiles of p are kept, the pair becomes one tile 2 * x, and the pass starts afresh on
   * r, so the new tile is never compared with anything again.
   */
  lemma {:induction false} CombineFirstMerge(p: seq<int>, x: int, r: seq<int>)
    requires NoEqualPair(p + [x])
    ensures Combine(p + ([x, x] + r)) == p + ([2 * x] + Combine(r))
    ensures CombineGain(p + ([x, x] + r)) == 2 * x + CombineGain(r)
  {
    if |p| == 0 {
      assert p + ([x, x] + r) == [x, x] + r;
      assert p + ([2 * x] + Combine(r)) == [2 * x] + Combine(r);
      CombinePair(x, r);
    } else {
      var q := p[1..];
      var tail := q + ([x, x] + r);
      ConsAppend(p, [x, x] + r);
      assert tail[0] != p[0] by {
        assert (p + [x])[0] == p[0] && (p + [x])[1] == tail[0];
      }
      assert NoEqualPair(q + [x]) by {
        forall k | 0 <= k < |q + [x]| - 1 ensures (q + [x])[k] != (q + [x])[k + 1] {
          assert (q + [x])[k] == (p + [x])[k + 1] && (q + [x])[k + 1] == (p + [x])[k + 2];
        }
      }
      CombineNoPair(p[0], tail);
      CombineFirstMerge(q, x, r);
      ConsAppend(p, [2 * x] + Combine(r));
    }
  }

  /** A non-empty prefix splits into its head and the rest, whatever follows it. */
  lemma ConsAppend(p: seq<int>, y: seq<int>)
    requires |p| > 0
    ensures p + y == [p[0]] + (p[1..] + y)
  {
    assert p == [p[0]] + p[1..];
  }

  /**
   * The merge loop of `mergeRow` run from index i to the end of f: where f[i] equals f[i + 1],
   * f[i] is doubled and f[i + 1] set to 0; then the loop moves on to i + 1.
   */
  function PassFrom(f: seq<int>, i: nat): seq<int>
    decreases |f| - i
  {
    if i + 1 >= |f| then f
    else if f[i] == f[i + 1] then PassFrom(f[i := 2 * f[i]][i + 1 := 0], i + 1)
    else PassFrom(f, i + 1)
  }

  /** What the merge loop run from index i adds to the score. */
  function PassGainFrom(f: seq<int>, i: nat): int
    decreases |f| - i
  {
    if i + 1 >= |f| then 0
    else if f[i] == f[i + 1] then 2 * f[i] + PassGainFrom(f[i := 2 * f[i]][i + 1 := 0], i + 1)
    else PassGainFrom(f, i + 1)
  }

  /** The loop with at most one entry left to visit changes nothing. */
  lemma PassLast(f: seq<int>, i: nat)
    requires i <= |f| && i + 1 >= |f|
    ensures Compact(f) == Compact(f[..i]) + Combine(Compact(f[i..]))
  {
    assert f == f[..i] + f[i..];
    CompactAppend(f[..i], f[i..]);
  }

  lemma CompactCons(x: int, t: seq<int>)
    ensures Compact([x] + t) == (if x != 0 then [x] else []) + Compact(t)
  {
    assert ([x] + t)[1..] == t;
  }

  lemma CompactSnoc(p: seq<int>, x: int)
    ensures Compact(p + [x]) == Compact(p) + (if x != 0 then [x] else [])
  {
    CompactAppend(p, [x]);
    CompactCons(x, []);
    assert [x] + [] == [x];
  }

  lemma CombinePair(x: int, t: seq<int>)
    ensures Combine([x, x] + t) == [2 * x] + Combine(t)
    ensures CombineGain([x, x] + t) == 2 * x + CombineGain(t)
  {
    assert ([x, x] + t)[2..] == t;
  }

  lemma CombineNoPair(x: int, t: seq<int>)
    requires |t| == 0 || t[0] != x
    ensures Combine([x] + t) == [x] + Combine(t)
    ensures CombineGain([x] + t) == CombineGain(t)
  {
    assert ([x] + t)[1..] == t;
  }

  /**
   * A merging step: with the tiles p before index i and x, x, t from index i on, the loop
   * turns x, x into 2x, 0 and goes on at the 0.
   */
  lemma PassMergeStep(p: seq<int>, x: int, t: seq<int>)
    requires x != 0 && NoZeros(t)
    ensures Compact(p + [2 * x]) + Combine(Compact([0] + t)) == Compact(p) + Combine(Compact([x, x] + t))
    ensures CombineGain(Compact([0] + t)) + 2 * x == CombineGain(Compact([x, x] + t))
  {
    assert Compact([x, x] + t) == [x, x] + t by {
      CompactKeepsNonZeroLine(t);
      CompactCons(x, t);
      CompactCons(x, [x] + t);
      assert [x] + ([x] + t) == [x, x] + t;
    }
    assert Compact([0] + t) == t by {
      CompactKeepsNonZeroLine(t);
      CompactCons(0, t);
    }
    calc {
      Compact(p) + Combine(Compact([x, x] + t));
      Compact(p) + Combine([x, x] + t);
      { CombinePair(x, t); }
      Compact(p) + ([2 * x] + Combine(t));
      (Compact(p) + [2 * x]) + Combine(t);
      { CompactSnoc(p, 2 * x); }
      Compact(p + [2 * x]) + Combine(Compact([0] + t));
    }
    calc {
      CombineGain(Compact([x, x] + t));
      CombineGain([x, x] + t);
      { CombinePair(x, t); }
      2 * x + CombineGain(t);
      2 * x + CombineGain(Compact([0] + t));
    }
  }

  /** A step at an empty cell (p before it, t after it): the loop moves on with nothing to do. */
  lemma PassSkipStep(p: seq<int>, t: seq<int>)
    ensures Compact(p + [0]) + Combine(Compact(t)) == Compact(p) + Combine(Compact([0] + t))
    ensures CombineGain(Compact(t)) == CombineGain(Compact([0] + t))
  {
    calc {
      Compact(p) + Combine(Compact([0] + t));
      { CompactCons(0, t); assert [] + Compact(t) == Compact(t); }
      Compact(p) + Combine(Compact(t));
      { CompactSnoc(p, 0); assert Compact(p) + [] == Compact(p); }
      Compact(p + [0]) + Combine(Compact(t));
    }
    calc {
      CombineGain(Compact([0] + t));
      { CompactCons(0, t); assert [] + Compact(t) == Compact(t); }
      CombineGain(Compact(t));
    }
  }

  /** A step at a tile x (p before it, t after it) unequal to the next one: nothing changes. */
  lemma PassKeepStep(p: seq<int>, x: int, t: seq<int>)
    requires x != 0 && NoZeros(t) && |t| > 0 && t[0] != x
    ensures Compact(p + [x]) + Combine(Compact(t)) == Compact(p) + Combine(Compact([x] + t))
    ensures CombineGain(Compact(t)) == CombineGain(Compact([x] + t))
  {
    assert Compact([x] + t) == [x] + t by {
      CompactKeepsNonZeroLine(t);
      CompactCons(x, t);
    }
    assert Compact(t) == t by {
      CompactKeepsNonZeroLine(t);
    }
    calc {
      Compact(p) + Combine(Compact([x] + t));
      Compact(p) + Combine([x] + t);
      { CombineNoPair(x, t); }
      Compact(p) + ([x] + Combine(t));
      (Compact(p) + [x]) + Combine(t);
      { CompactSnoc(p, x); }
      Compact(p + [x]) + Combine(Compact(t));
    }
    calc {
      CombineGain(Compact([x] + t));
      CombineGain([x] + t);
      { CombineNoPair(x, t); }
      CombineGain(Compact(t));
    }
  }

  /**
   * The merge loop from index i keeps the tiles before i and, after i, yields the single-pass
   * merge of the tiles there, provided nothing after index i is empty.
   */
  lemma {:induction false} PassFromCombines(f: seq<int>, i: nat)
    requires i <= |f| && (i < |f| ==> NoZeros(f[i + 1..]))
    ensures Compact(PassFrom(f, i)) == Compact(f[..i]) + Combine(Compact(f[i..]))
    ensures PassGainFrom(f, i) == CombineGain(Compact(f[i..]))
    decreases |f| - i
  {
    if i + 1 >= |f| {
      PassLast(f, i);
    } else {
      var p, x, t := f[..i], f[i], f[i + 2..];
      assert f[i..] == [x, f[i + 1]] + t;
      assert f[i + 1..] == [f[i + 1]] + t;
      assert f[i + 1] != 0 && NoZeros(t) by {
        assert f[i + 1] == f[i + 1..][0];
        forall k | 0 <= k < |t| ensures t[k] != 0 { assert t[k] == f[i + 1..][k + 1]; }
      }
      if x == f[i + 1] {
        var g := f[i := 2 * f[i]][i + 1 := 0];
        assert g[..i + 1] == p + [2 * x];
        assert g[i + 1..] == [0] + t;
        PassMergeStep(p, x, t);
        PassFromCombines(g, i + 1);
      } else {
        assert f[..i + 1] == p + [x];
        if x == 0 {
          PassSkipStep(p, f[i + 1..]);
        } else {
          PassKeepStep(p, x, f[i + 1..]);
        }
        PassFromCombines(f, i + 1);
      }
    }
  }

  /** The merge loop over a whole zero-free line is Combine, and it scores CombineGain. */
  lemma PassIsCombine(c: seq<int>)
    requires NoZeros(c)
    ensures Compact(PassFrom(c, 0)) == Combine(c)
    ensures PassGainFrom(c, 0) == CombineGain(c)
  {
    assert |c| > 0 ==> NoZeros(c[1..]);
    PassFromCombines(c, 0);
    assert c[..0] == [] && c[0..] == c;
    CompactKeepsNonZeroLine(c);
  }

  // ---------------------------------------------------------------------------------------
  // The whole line merge

  /**
   * On a line of at most n entries, mergeRow returns exactly n entries, all tiles before all
   * zeros, and its tiles are exactly those the merge pass makes from the line's tiles.
   */
  lemma MergedRowShape(row: seq<int>, n: nat)
    requires |row| <= n
    ensures |MergedRow(row, n)| == n
    ensures Packed(MergedRow(row, n))
    ensures Compact(MergedRow(row, n)) == Combine(Compact(row))
  {
    var c := Combine(Compact(row));
    var r := MergedRow(row, n);
    assert r == c + Zeros(n - |c|);
    CompactAppend(c, Zeros(n - |c|));
    CompactZeros(n - |c|);
    CompactKeepsNonZeroLine(c);
    forall i, j | 0 <= i < j < |r| && r[i] == 0 ensures r[j] == 0 {
      assert i >= |c|;
    }
  }

  /** mergeRow keeps the tile total of the line. */
  lemma MergedRowConserves(row: seq<int>, n: nat)
    requires |row| <= n
    ensures Sum(MergedRow(row, n)) == Sum(row)
  {
    var c := Combine(Compact(row));
    SumAppend(c, Zeros(n - |c|));
    SumZeros(n - |c|);
    CombineConserves(Compact(row));
    CompactKeepsTiles(row);
  }

  /** If every entry of the line is 0 or a power of two of at least 2, so is every entry of the merged line. */
  lemma MergedRowKeepsTiles(row: seq<int>, n: nat)
    requires AllTiles(row)
    ensures AllTiles(MergedRow(row, n))
  {
    var cr := Compact(row);
    CompactKeepsTiles(row);
    CombineKeepsPowers(cr);
  }

  /** Single pass: at most half of the line's tiles disappear, so [2,2,2,2] cannot become [8]. */
  lemma MergedRowSinglePass(row: seq<int>, n: nat)
    requires |row| <= n
    ensures |Compact(row)| <= 2 * |Compact(MergedRow(row, n))|
  {
    MergedRowShape(row, n);
  }

  /** The single-pass rule: four equal tiles give two doubled tiles, [2,2,2,2] gives [4,4,0,0] for 8 points. */
  lemma SinglePassFourEqual()
    ensures MergedRow([2, 2, 2, 2], 4) == [4, 4, 0, 0] && RowGain([2, 2, 2, 2]) == 8
  {
    assert Compact([2, 2, 2, 2]) == [2, 2, 2, 2];
    assert [2, 2, 2, 2][2..] == [2, 2];
  }

  /** A merged tile does not merge again in the same pass: [2,2,4,0] gives [4,4,0,0] for 4 points. */
  lemma SinglePassNoChain()
    ensures MergedRow([2, 2, 4, 0], 4) == [4, 4, 0, 0] && RowGain([2, 2, 4, 0]) == 4
  {
    assert Compact([2, 2, 4, 0]) == [2, 2, 4];
    assert [2, 2, 4][2..] == [4];
  }

  /** Equal tiles merge across empty cells: [0,4,0,4] gives [8,0,0,0] for 8 points. */
  lemma SinglePassAcrossGaps()
    ensures MergedRow([0, 4, 0, 4], 4) == [8, 0, 0, 0] && RowGain([0, 4, 0, 4]) == 8
  {
    assert Compact([0, 4, 0, 4]) == [4, 4];
  }

  /** A line is left unchanged by mergeRow exactly when it is settled. */
  lemma MergedRowFixedIff(row: seq<int>, n: nat)
    requires |row| == n
    ensures MergedRow(row, n) == row <==> Settled(row)
  {
    var cr := Compact(row);
    MergedRowShape(row, n);
    if MergedRow(row, n) == row {
      PackedSplit(row);
      CombineFixedIff(cr);
      assert row[..|cr|] == cr;
      forall k | 0 <= k < |row| - 1 && row[k] != 0 ensures row[k] != row[k + 1] {
        if k + 1 < |cr| {
          assert row[k] == cr[k] && row[k + 1] == cr[k + 1];
        } else {
          assert k < |cr|;
          assert row[k + 1] == 0;
        }
      }
    }
    if Settled(row) {
      PackedSplit(row);
      assert row[..|cr|] == cr;
      assert NoEqualPair(cr) by {
        forall k | 0 <= k < |cr| - 1 ensures cr[k] != cr[k + 1] {
          assert row[k] == cr[k] && row[k + 1] == cr[k + 1];
        }
      }
      CombineFixedIff(cr);
    }
  }

  /** A line that mergeRow changes comes out with at least one empty cell. */
  lemma ChangedRowHasGap(row: seq<int>, n: nat)
    requires |row| == n
    requires MergedRow(row, n) != row
    ensures exists k :: 0 <= k < n && MergedRow(row, n)[k] == 0
  {
    var cr := Compact(row);
    var c := Combine(cr);
    MergedRowShape(row, n);
    if |c| == n {
      CompactKeepsNonZeroLine(row);
      CombineFixedIff(cr);
      assert false;
    }
    assert MergedRow(row, n)[n - 1] == 0;
  }

  /** A line that earns points is changed: a merge always shortens the line's tiles. */
  lemma ScoringRowChanges(row: seq<int>, n: nat)
    requires |row| <= n
    requires RowGain(row) != 0
    ensures MergedRow(row, n) != row
  {
    MergedRowShape(row, n);
    CombineGainBounds(Compact(row));
  }

  /**
   * On a line of tiles the gain is between 0 and the line's total, and it is 0 exactly when no
   * tile merges, that is when the merged line holds the same tiles as the line.
   */
  lemma RowGainBounds(row: seq<int>, n: nat)
    requires |row| <= n
    requires AllTiles(row)
    ensures 0 <= RowGain(row) <= Sum(row)
    ensures RowGain(row) == 0 <==> Compact(MergedRow(row, n)) == Compact(row)
  {
    CompactKeepsTiles(row);
    CombineGainBounds(Compact(row));
    CombineFixedIff(Compact(row));
    MergedRowShape(row, n);
  }
}
