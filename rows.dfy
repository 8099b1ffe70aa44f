/** One row of the 2048 board and the three steps of a left move on it:
    compress (stable left packing of the tiles), merge (the in-place, left to
    right pairwise merge) and compress again.  A cell holding 0 is empty; any
    other value is a tile.  Rows are unbounded here; the board fixes them to
    four cells. */
module Rows {

  type Row = seq<int>

  /** The tiles of s, in their left-to-right order (built from the right end,
      the way the compress loop appends at its position counter). */
  function NonZero(s: Row): (t: Row)
    ensures |t| <= |s|
    ensures forall i :: 0 <= i < |t| ==> t[i] != 0
  {
    if s == [] then []
    else NonZero(s[..|s| - 1]) + (if s[|s| - 1] != 0 then [s[|s| - 1]] else [])
  }

  /** n empty cells. */
  function Zeros(n: nat): (z: Row)
    ensures |z| == n
    ensures forall i :: 0 <= i < n ==> z[i] == 0
  {
    seq(n, _ => 0)
  }

  /** Number of tiles in s. */
  function Count(s: Row): nat
  {
    |NonZero(s)|
  }

  /** Total of all cells of s. */
  function Sum(s: Row): int
  {
    if s == [] then 0 else s[0] + Sum(s[1..])
  }

  /** compress, on one row: the tiles packed from column 0, then padding. */
  function CompressRow(s: Row): (t: Row)
    ensures |t| == |s|
  {
    NonZero(s) + Zeros(|s| - |NonZero(s)|)
  }

  /** No tile stands to the right of an empty cell. */
  predicate IsPacked(s: Row)
  {
    forall i, j :: 0 <= i < j < |s| && s[i] == 0 ==> s[j] == 0
  }

  /** No cell holds a tile equal to its right neighbour. */
  predicate NoMerge(s: Row)
  {
    forall c :: 0 <= c < |s| - 1 ==> s[c] == 0 || s[c] != s[c + 1]
  }

  /** One step of the merge scan at column c: a tile equal to its right
      neighbour is doubled and the neighbour emptied. */
  function MergeAt(s: Row, c: nat): (t: Row)
    requires c + 1 < |s|
    ensures |t| == |s|
  {
    if s[c] == s[c + 1] && s[c] != 0 then s[c := s[c] * 2][c + 1 := 0] else s
  }

  /** The rest of the merge scan, from column c on, each step seeing the
      row as the previous steps left it. */
  function MergeFrom(s: Row, c: nat): (t: Row)
    requires c <= |s|
    ensures |t| == |s|
    decreases |s| - c
  {
    if c + 1 >= |s| then s else MergeFrom(MergeAt(s, c), c + 1)
  }

  /** merge, on one row. */
  function MergeRow(s: Row): (t: Row)
    ensures |t| == |s|
  {
    MergeFrom(s, 0)
  }

  /** Reference definition of merge with an explicit skip: a merged pair is
      emitted and the scan resumes after both of its cells. */
  function MergePairs(s: Row): (t: Row)
    ensures |t| == |s|
  {
    if |s| < 2 then s
    else if s[0] == s[1] && s[0] != 0 then [s[0] * 2, 0] + MergePairs(s[2..])
    else [s[0]] + MergePairs(s[1..])
  }

  /** Number of pairs that MergePairs merges. */
  function MergeCount(s: Row): nat
  {
    if |s| < 2 then 0
    else if s[0] == s[1] && s[0] != 0 then 1 + MergeCount(s[2..])
    else MergeCount(s[1..])
  }

  /** move_left, on one row: compress, merge, compress. */
  function MoveLeftRow(s: Row): (t: Row)
    ensures |t| == |s|
  {
    CompressRow(MergeRow(CompressRow(s)))
  }

  /** The row read right to left (row[::-1]). */
  function Rev(s: Row): (t: Row)
    ensures |t| == |s|
  {
    seq(|s|, i requires 0 <= i < |s| => s[|s| - 1 - i])
  }

  /** Every cell of t holds what s held there, or the double of it (having
      absorbed its equal right neighbour, which t empties), or is empty
      because its equal left neighbour absorbed it.  In particular no cell of
      t holds four times a tile of s: nothing merges twice. */
  ghost predicate OneMergePerTile(s: Row, t: Row)
    requires |t| == |s|
  {
    forall c :: 0 <= c < |s| ==> MergedAtMostOnce(s, t, c)
  }

  /** OneMergePerTile at column c. */
  ghost predicate MergedAtMostOnce(s: Row, t: Row, c: nat)
    requires |t| == |s| && c < |s|
  {
    t[c] == s[c]
    || (c + 1 < |s| && s[c] != 0 && s[c + 1] == s[c] && t[c] == 2 * s[c] && t[c + 1] == 0)
    || (0 < c && s[c] != 0 && s[c - 1] == s[c] && t[c - 1] == 2 * s[c] && t[c] == 0)
  }

  // ---------------------------------------------------------------------
  // Tiles, totals and concatenation

  lemma {:induction false} NonZeroAppend(a: Row, b: Row)
    ensures NonZero(a + b) == NonZero(a) + NonZero(b)
    decreases |b|
  {
    if b == [] {
      assert a + b == a;
    } else {
      var b' := b[..|b| - 1];
      assert (a + b)[..|a + b| - 1] == a + b';
      NonZeroAppend(a, b');
    }
  }

  lemma CountCons(x: int, s: Row)
    ensures Count([x] + s) == (if x != 0 then 1 else 0) + Count(s)
  {
    NonZeroAppend([x], s);
    assert [x][..0] == [];
  }

  lemma {:induction false} SumAppend(a: Row, b: Row)
    ensures Sum(a + b) == Sum(a) + Sum(b)
    decreases |a|
  {
    if a == [] {
      assert a + b == b;
    } else {
      assert (a + b)[1..] == a[1..] + b;
      SumAppend(a[1..], b);
    }
  }

  lemma {:induction false} NonZeroOfZeros(n: nat)
    ensures NonZero(Zeros(n)) == []
  {
    if n > 0 {
      assert Zeros(n)[..n - 1] == Zeros(n - 1);
      NonZeroOfZeros(n - 1);
    }
  }

  lemma {:induction false} SumOfZeros(n: nat)
    ensures Sum(Zeros(n)) == 0
  {
    if n > 0 {
      assert Zeros(n)[1..] == Zeros(n - 1);
      SumOfZeros(n - 1);
    }
  }

  /** A row with no empty cell is its own list of tiles. */
  lemma {:induction false} NonZeroOfFull(s: Row)
    requires forall i :: 0 <= i < |s| ==> s[i] != 0
    ensures NonZero(s) == s
  {
    if s != [] {
      NonZeroOfFull(s[..|s| - 1]);
    }
  }

  /** Dropping the empty cells does not change the total. */
  lemma {:induction false} SumNonZero(s: Row)
    ensures Sum(NonZero(s)) == Sum(s)
  {
    if s != [] {
      var s', x := s[..|s| - 1], s[|s| - 1];
      assert s == s' + [x];
      SumNonZero(s');
      SumAppend(s', [x]);
      SumAppend(NonZero(s'), if x != 0 then [x] else []);
    }
  }

  // ---------------------------------------------------------------------
  // compress

  /** compress packs stably: the result is packed and holds exactly the
      input's tiles, in their original order. */
  lemma CompressPacksStably(s: Row)
    ensures IsPacked(CompressRow(s))
    ensures NonZero(CompressRow(s)) == NonZero(s)
  {
    var k := |NonZero(s)|;
    NonZeroAppend(NonZero(s), Zeros(|s| - k));
    NonZeroOfFull(NonZero(s));
    NonZeroOfZeros(|s| - k);
  }

  /** A packed row is left as it is by compress. */
  lemma {:induction false} PackedIsCompressed(t: Row)
    requires IsPacked(t)
    ensures CompressRow(t) == t
  {
    if t != [] {
      var t', x := t[..|t| - 1], t[|t| - 1];
      assert t == t' + [x];
      if x != 0 {
        NonZeroOfFull(t);
      } else {
        PackedIsCompressed(t');
        var k := |t'| - |NonZero(t')|;
        assert Zeros(k + 1) == Zeros(k) + [0];
      }
    }
  }

  /** compress is the only packing of a row's tiles: any packed row of the
      same length holding the same tiles in the same order is its result. */
  lemma CompressUnique(s: Row, t: Row)
    requires |t| == |s| && IsPacked(t) && NonZero(t) == NonZero(s)
    ensures t == CompressRow(s)
  {
    PackedIsCompressed(t);
  }

  lemma CompressIdempotent(s: Row)
    ensures CompressRow(CompressRow(s)) == CompressRow(s)
  {
    CompressPacksStably(s);
    PackedIsCompressed(CompressRow(s));
  }

  lemma CompressSum(s: Row)
    ensures Sum(CompressRow(s)) == Sum(s)
  {
    SumAppend(NonZero(s), Zeros(|s| - |NonZero(s)|));
    SumOfZeros(|s| - |NonZero(s)|);
    SumNonZero(s);
  }

  // ---------------------------------------------------------------------
  // merge

  lemma MergePairsZeroHead(t: Row)
    ensures MergePairs([0] + t) == [0] + MergePairs(t)
  {
    if t != [] {
      assert ([0] + t)[1..] == t;
    }
  }

  /** The in-place scan from column c leaves the first c cells alone and
      merges the rest exactly as the explicit-skip reference does. */
  lemma {:induction false} MergeFromIsPairs(s: Row, c: nat)
    requires c <= |s|
    ensures MergeFrom(s, c) == s[..c] + MergePairs(s[c..])
    decreases |s| - c
  {
    if c + 1 >= |s| {
      assert s == s[..c] + s[c..];
    } else {
      MergeFromIsPairs(MergeAt(s, c), c + 1);
      if s[c] == s[c + 1] && s[c] != 0 {
        MergeStepMerges(s, c);
      } else {
        MergeStepKeeps(s, c);
      }
    }
  }

  /** A step that merges at column c emits the doubled tile and the emptied
      cell, as the reference does. */
  lemma MergeStepMerges(s: Row, c: nat)
    requires c + 1 < |s| && s[c] == s[c + 1] && s[c] != 0
    ensures MergeAt(s, c)[..c + 1] + MergePairs(MergeAt(s, c)[c + 1..]) == s[..c] + MergePairs(s[c..])
  {
    var s', rest := MergeAt(s, c), s[c..];
    assert rest[2..] == s[c + 2..];
    assert MergePairs(rest) == [s[c] * 2, 0] + MergePairs(s[c + 2..]);
    assert s'[c + 1..] == [0] + s[c + 2..];
    MergePairsZeroHead(s[c + 2..]);
    assert s'[..c + 1] == s[..c] + [s[c] * 2];
  }

  /** A step that does not merge at column c passes that cell through. */
  lemma MergeStepKeeps(s: Row, c: nat)
    requires c + 1 < |s| && !(s[c] == s[c + 1] && s[c] != 0)
    ensures MergeAt(s, c)[..c + 1] + MergePairs(MergeAt(s, c)[c + 1..]) == s[..c] + MergePairs(s[c..])
  {
    var rest := s[c..];
    assert rest[1..] == s[c + 1..];
    assert MergePairs(rest) == [s[c]] + MergePairs(s[c + 1..]);
    assert s[..c + 1] == s[..c] + [s[c]];
  }

  /** merge (the in-place left-to-right scan) equals the explicit-skip
      reference: a tile made by a merge is never compared again. */
  lemma MergeRowIsPairs(s: Row)
    ensures MergeRow(s) == MergePairs(s)
  {
    MergeFromIsPairs(s, 0);
    assert s[0..] == s;
  }

  /** merge conserves the total: a merge doubles one cell and empties its
      partner. */
  lemma {:induction false} MergeSum(s: Row)
    ensures Sum(MergeRow(s)) == Sum(s)
  {
    MergeRowIsPairs(s);
    MergePairsSum(s);
  }

  lemma {:induction false} MergePairsSum(s: Row)
    ensures Sum(MergePairs(s)) == Sum(s)
  {
    if |s| >= 2 {
      assert s[1..][1..] == s[2..];
      if s[0] == s[1] && s[0] != 0 {
        MergePairsSum(s[2..]);
        SumAppend([s[0] * 2, 0], MergePairs(s[2..]));
      } else {
        MergePairsSum(s[1..]);
        SumAppend([s[0]], MergePairs(s[1..]));
      }
    }
  }

  /** Each merge removes exactly one tile. */
  lemma {:induction false} MergeCountTiles(s: Row)
    ensures Count(MergeRow(s)) + MergeCount(s) == Count(s)
  {
    MergeRowIsPairs(s);
    MergePairsCountTiles(s);
  }

  lemma {:induction false} MergePairsCountTiles(s: Row)
    ensures Count(MergePairs(s)) + MergeCount(s) == Count(s)
  {
    if |s| >= 2 {
      assert s == [s[0]] + s[1..];
      assert s[1..] == [s[1]] + s[2..];
      CountCons(s[0], s[1..]);
      CountCons(s[1], s[2..]);
      if s[0] == s[1] && s[0] != 0 {
        MergePairsCountTiles(s[2..]);
        assert [s[0] * 2, 0] + MergePairs(s[2..]) == [s[0] * 2] + ([0] + MergePairs(s[2..]));
        CountCons(s[0] * 2, [0] + MergePairs(s[2..]));
        CountCons(0, MergePairs(s[2..]));
      } else {
        MergePairsCountTiles(s[1..]);
        CountCons(s[0], MergePairs(s[1..]));
      }
    }
  }

  /** merge merges something exactly when some tile equals its right
      neighbour. */
  lemma {:induction false} MergeCountZero(s: Row)
    ensures MergeCount(s) == 0 <==> NoMerge(s)
  {
    if |s| >= 2 {
      MergeCountZero(s[1..]);
      assert NoMerge(s) <==> (s[0] == 0 || s[0] != s[1]) && NoMerge(s[1..]) by {
        if NoMerge(s) {
          forall c | 0 <= c < |s[1..]| - 1 ensures s[1..][c] == 0 || s[1..][c] != s[1..][c + 1] {
            assert s[c + 1] == 0 || s[c + 1] != s[c + 2];
          }
        }
        if (s[0] == 0 || s[0] != s[1]) && NoMerge(s[1..]) {
          forall c | 0 <= c < |s| - 1 ensures s[c] == 0 || s[c] != s[c + 1] {
            if c > 0 {
              assert s[1..][c - 1] == s[c];
            }
          }
        }
      }
    }
  }

  /** Without a mergeable pair, merge leaves the row as it is. */
  lemma {:induction false} NoMergeFixed(s: Row)
    requires MergeCount(s) == 0
    ensures MergePairs(s) == s
  {
    if |s| >= 2 {
      NoMergeFixed(s[1..]);
    }
  }

  /** No double merge: every cell of merge's result is the input cell, its
      double (its equal right neighbour emptied), or consumed by its left
      neighbour. */
  lemma {:induction false} MergeOncePerTile(s: Row)
    ensures OneMergePerTile(s, MergeRow(s))
  {
    MergeRowIsPairs(s);
    PairsOncePerTile(s);
  }

  lemma {:induction false} PairsOncePerTile(s: Row)
    ensures OneMergePerTile(s, MergePairs(s))
  {
    var t := MergePairs(s);
    if |s| >= 2 {
      var k := if s[0] == s[1] && s[0] != 0 then 2 else 1;
      var u := s[k..];
      PairsOncePerTile(u);
      assert t == t[..k] + MergePairs(u);
      assert MergedAtMostOnce(s, t, 0);
      if k == 2 {
        assert MergedAtMostOnce(s, t, 1);
      }
      forall c | k <= c < |s|
        ensures MergedAtMostOnce(s, t, c)
      {
        assert MergedAtMostOnce(u, MergePairs(u), c - k);
        assert t[c] == MergePairs(u)[c - k] && s[c] == u[c - k];
        if c + 1 < |s| {
          assert t[c + 1] == MergePairs(u)[c + 1 - k] && s[c + 1] == u[c + 1 - k];
        }
        if c > k {
          assert t[c - 1] == MergePairs(u)[c - 1 - k] && s[c - 1] == u[c - 1 - k];
        }
      }
    }
  }

  // ---------------------------------------------------------------------
  // move_left on a row

  /** move_left conserves the total of the row. */
  lemma MoveLeftRowSum(s: Row)
    ensures Sum(MoveLeftRow(s)) == Sum(s)
  {
    CompressSum(s);
    MergeSum(CompressRow(s));
    CompressSum(MergeRow(CompressRow(s)));
  }

  /** move_left removes exactly one tile per merge, so it never adds one. */
  lemma MoveLeftRowCount(s: Row)
    ensures Count(MoveLeftRow(s)) + MergeCount(CompressRow(s)) == Count(s)
    ensures Count(MoveLeftRow(s)) <= Count(s)
  {
    CompressPacksStably(s);
    MergeCountTiles(CompressRow(s));
    CompressPacksStably(MergeRow(CompressRow(s)));
  }

  /** move_left leaves a row alone exactly when the row is packed and has no
      mergeable pair. */
  lemma MoveLeftRowFixed(s: Row)
    ensures MoveLeftRow(s) == s <==> IsPacked(s) && NoMerge(s)
  {
    if IsPacked(s) && NoMerge(s) {
      PackedIsCompressed(s);
      MergeCountZero(s);
      NoMergeFixed(s);
      MergeRowIsPairs(s);
    }
    if MoveLeftRow(s) == s {
      CompressPacksStably(MergeRow(CompressRow(s)));
      PackedIsCompressed(s);
      MoveLeftRowCount(s);
      MergeCountZero(s);
    }
  }

  /** A row whose tiles number as many as its cells has no empty cell. */
  lemma {:induction false} FullLengthNonZero(s: Row)
    requires |NonZero(s)| == |s|
    ensures NonZero(s) == s
  {
    if s != [] {
      var init := s[..|s| - 1];
      assert |NonZero(init)| <= |init|;
      FullLengthNonZero(init);
      assert s == init + [s[|s| - 1]];
    }
  }

  /** A row with fewer tiles than cells has an empty cell. */
  lemma RoomFromCount(t: Row)
    requires Count(t) < |t|
    ensures exists c :: 0 <= c < |t| && t[c] == 0
  {
    if forall c :: 0 <= c < |t| ==> t[c] != 0 {
      NonZeroOfFull(t);
    }
  }

  /** A move_left that changes a row leaves an empty cell in it: either the
      row already had one, or a full row changes only by merging, which
      frees a cell. */
  lemma MoveLeftRowLeavesRoom(s: Row)
    ensures MoveLeftRow(s) != s ==> exists c :: 0 <= c < |s| && MoveLeftRow(s)[c] == 0
  {
    MoveLeftRowCount(s);
    if Count(MoveLeftRow(s)) < |s| {
      RoomFromCount(MoveLeftRow(s));
    } else {
      FullLengthNonZero(s);
      assert CompressRow(s) == s;
      NoMergeFixed(s);
      MergeRowIsPairs(s);
    }
  }

  /** The example rows under merge: a row of four equal tiles merges into
      two tiles, not one, and a tile made by a merge does not merge again
      with an equal neighbour. */
  lemma MergeRowExamples()
    ensures MergeRow([2, 2, 2, 2]) == [4, 0, 4, 0]
    ensures MergeRow([2, 2, 4, 0]) == [4, 0, 4, 0]
  {
    MergeRowIsPairs([2, 2, 2, 2]);
    MergeRowIsPairs([2, 2, 4, 0]);
    assert [2, 2, 2, 2][2..] == [2, 2];
    assert [2, 2, 4, 0][2..] == [4, 0];
    assert MergePairs([2, 2]) == [4, 0];
    assert MergePairs([4, 0]) == [4, 0] by {
      assert [4, 0][1..] == [0];
    }
  }

  /** Compress of the merged example row. */
  lemma CompressMergedExample()
    ensures CompressRow([4, 0, 4, 0]) == [4, 4, 0, 0]
  {
    assert NonZero([4, 0, 4, 0]) == [4, 4] by {
      NonZeroAppend([4, 0], [4, 0]);
      NonZeroAppend([4], [0]);
      assert [4, 0, 4, 0] == [4, 0] + [4, 0];
      assert [4, 0] == [4] + [0];
    }
    assert NonZero([4, 4, 0, 0]) == [4, 4] by {
      NonZeroAppend([4, 4], [0, 0]);
      NonZeroOfFull([4, 4]);
      assert [0, 0] == Zeros(2);
      NonZeroOfZeros(2);
      assert [4, 4, 0, 0] == [4, 4] + [0, 0];
    }
    CompressUnique([4, 0, 4, 0], [4, 4, 0, 0]);
  }

  /** The example rows under move_left: both end as two 4s packed left. */
  lemma MoveLeftRowExamples()
    ensures MoveLeftRow([2, 2, 2, 2]) == [4, 4, 0, 0]
    ensures MoveLeftRow([2, 2, 4, 0]) == [4, 4, 0, 0]
  {
    PackedIsCompressed([2, 2, 2, 2]);
    PackedIsCompressed([2, 2, 4, 0]);
    MergeRowExamples();
    CompressMergedExample();
  }

  // ---------------------------------------------------------------------
  // reversal

  lemma RevRev(s: Row)
    ensures Rev(Rev(s)) == s
  {
  }

  lemma {:induction false} RevSum(s: Row)
    ensures Sum(Rev(s)) == Sum(s)
  {
    if s != [] {
      assert Rev(s) == Rev(s[1..]) + [s[0]];
      RevSum(s[1..]);
      SumAppend(Rev(s[1..]), [s[0]]);
    }
  }

  lemma {:induction false} RevCount(s: Row)
    ensures Count(Rev(s)) == Count(s)
  {
    if s != [] {
      assert Rev(s) == Rev(s[1..]) + [s[0]];
      assert s == [s[0]] + s[1..];
      RevCount(s[1..]);
      NonZeroAppend(Rev(s[1..]), [s[0]]);
      CountCons(s[0], s[1..]);
      assert [s[0]][..0] == [];
    }
  }
}
