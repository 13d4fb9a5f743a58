/** De-interleaving of spread audio in ASF files (src/demuxers/demux_asf.c:686-703): blocks of h rows and w columns of
    b-byte cells, stored by rows, are rewritten by columns. */
module AsfReorder {
  import opened Arithmetic
  import opened Bytes

  // ----- cells of a block -----

  lemma GridFits(y: nat, x: nat, h: nat, w: nat)
    requires y < h && x < w
    ensures 0 <= y * w + x < h * w
  {
    Fits(y, h, w);
  }

  /** Cell number `c`, of `b` bytes. */
  function Cell(s: seq<byte>, c: nat, b: nat): (r: seq<byte>)
    requires 0 <= c * b && c * b + b <= |s|
    ensures |r| == b
  {
    s[c * b..c * b + b]
  }

  lemma CellOfFront(s: seq<byte>, t: seq<byte>, c: nat, b: nat)
    requires 0 <= c * b && c * b + b <= |s|
    ensures Cell(s + t, c, b) == Cell(s, c, b)
  {
  }

  lemma CellOfBack(s: seq<byte>, t: seq<byte>, m: nat, c: nat, b: nat)
    requires |s| == m * b && 0 <= c * b && c * b + b <= |t|
    ensures (m + c) * b == |s| + c * b && Cell(s + t, m + c, b) == Cell(t, c, b)
  {
  }

  /** The cell in row `y` and column `x` of a block of `h` rows and `w` columns. */
  function At(s: seq<byte>, h: nat, w: nat, b: nat, y: nat, x: nat): (r: seq<byte>)
    requires y < h && x < w && |s| == h * w * b
    ensures |r| == b
  {
    GridFits(y, x, h, w);
    Fits(y * w + x, h * w, b);
    Cell(s, y * w + x, b)
  }

  lemma AtIsSlice(s: seq<byte>, h: nat, w: nat, b: nat, y: nat, x: nat)
    requires y < h && x < w && |s| == h * w * b
    ensures 0 <= (y * w + x) * b && (y * w + x) * b + b <= |s|
    ensures At(s, h, w, b, y, x) == s[(y * w + x) * b..(y * w + x) * b + b]
  {
    GridFits(y, x, h, w);
    Fits(y * w + x, h * w, b);
  }

  // ----- the rewritten block -----

  /** The first `y` cells of column `x`. */
  function Column(s: seq<byte>, h: nat, w: nat, b: nat, x: nat, y: nat): (r: seq<byte>)
    requires y <= h && x < w && |s| == h * w * b
    ensures |r| == y * b
    decreases y
  {
    if y == 0 then [] else Column(s, h, w, b, x, y - 1) + At(s, h, w, b, y - 1, x)
  }

  /** The first `y` cells of each of the first `x` columns, column after column. */
  function Columns(s: seq<byte>, h: nat, w: nat, b: nat, x: nat, y: nat): (r: seq<byte>)
    requires y <= h && x <= w && |s| == h * w * b
    ensures |r| == x * y * b
    decreases x
  {
    if x == 0 then [] else
      assert x * y * b == (x - 1) * y * b + y * b by {
        assert x * y == (x - 1) * y + y;
      }
      Columns(s, h, w, b, x - 1, y) + Column(s, h, w, b, x - 1, y)
  }

  function Block(s: seq<byte>, h: nat, w: nat, b: nat): (r: seq<byte>)
    requires |s| == h * w * b
    ensures |r| == |s| && |r| == w * h * b
  {
    assert w * h == h * w;
    Columns(s, h, w, b, w, h)
  }

  /** The whole buffer: every full block is rewritten, the rest stays. */
  function Reordered(s: seq<byte>, h: nat, w: nat, b: nat): (r: seq<byte>)
    requires h * w * b > 0
    ensures |r| == |s|
  {
    if |s| < h * w * b then s
    else Block(s[..h * w * b], h, w, b) + Reordered(s[h * w * b..], h, w, b)
  }

  // ----- what it means -----

  lemma {:induction false} ColumnCell(s: seq<byte>, h: nat, w: nat, b: nat, x: nat, y: nat, k: nat)
    requires k < y <= h && x < w && |s| == h * w * b
    ensures 0 <= k * b && k * b + b <= y * b && Cell(Column(s, h, w, b, x, y), k, b) == At(s, h, w, b, k, x)
    decreases y
  {
    Fits(k, y, b);
    assert y * b == (y - 1) * b + b;
    hide Cell, At;
    var front, last := Column(s, h, w, b, x, y - 1), At(s, h, w, b, y - 1, x);
    if k < y - 1 {
      ColumnCell(s, h, w, b, x, y - 1, k);
      CellOfFront(front, last, k, b);
    } else {
      CellOfBack(front, last, y - 1, 0, b);
      WholeCell(last, b);
    }
  }

  lemma WholeCell(s: seq<byte>, b: nat)
    requires |s| == b
    ensures Cell(s, 0, b) == s
  {
  }

  /** Cell (y, x) of the original becomes cell (x, y) of the result. */
  lemma {:induction false} ColumnsCell(s: seq<byte>, h: nat, w: nat, b: nat, x: nat, x': nat, k: nat)
    requires x' < x <= w && k < h && |s| == h * w * b
    ensures 0 <= (x' * h + k) * b && (x' * h + k) * b + b <= x * h * b
    ensures Cell(Columns(s, h, w, b, x, h), x' * h + k, b) == At(s, h, w, b, k, x')
    decreases x
  {
    GridFits(x', k, x, h);
    Fits(x' * h + k, x * h, b);
    hide Cell, At, Column;
    var front := Columns(s, h, w, b, x - 1, h);
    var last := Column(s, h, w, b, x - 1, h);
    assert Columns(s, h, w, b, x, h) == front + last;
    if x' < x - 1 {
      ColumnsCell(s, h, w, b, x - 1, x', k);
      CellOfFront(front, last, x' * h + k, b);
    } else {
      ColumnCell(s, h, w, b, x', h, k);
      CellOfBack(front, last, x' * h, k, b);
    }
  }

  /** The block is transposed as a matrix of cells. */
  lemma Transposed(s: seq<byte>, h: nat, w: nat, b: nat, y: nat, x: nat)
    requires y < h && x < w && |s| == h * w * b
    ensures At(Block(s, h, w, b), w, h, b, x, y) == At(s, h, w, b, y, x)
  {
    ColumnsCell(s, h, w, b, w, x, y);
  }

  lemma {:induction false} SameCells(s: seq<byte>, t: seq<byte>, n: nat, b: nat)
    requires |s| == |t| == n * b
    requires forall c :: 0 <= c < n ==> SameCell(s, t, c, b)
    ensures s == t
  {
    if n > 0 {
      var m := (n - 1) * b;
      assert n * b == m + b && m >= 0;
      forall c | 0 <= c < n - 1
        ensures SameCell(s[..m], t[..m], c, b)
      {
        Fits(c, n - 1, b);
        assert SameCell(s, t, c, b);
        CellOfFront(s[..m], s[m..], c, b);
        CellOfFront(t[..m], t[m..], c, b);
        assert s == s[..m] + s[m..] && t == t[..m] + t[m..];
      }
      SameCells(s[..m], t[..m], n - 1, b);
      assert SameCell(s, t, n - 1, b);
      assert s == s[..m] + s[m..] && t == t[..m] + t[m..];
    }
  }

  ghost predicate SameCell(s: seq<byte>, t: seq<byte>, c: nat, b: nat) {
    0 <= c * b && c * b + b <= |s| && |t| == |s| && Cell(s, c, b) == Cell(t, c, b)
  }

  /** Rewriting a block again, with rows and columns exchanged, gives it back. */
  lemma BlockUndone(s: seq<byte>, h: nat, w: nat, b: nat)
    requires |s| == h * w * b
    ensures Block(Block(s, h, w, b), w, h, b) == s
  {
    var t := Block(s, h, w, b);
    var u := Block(t, w, h, b);
    forall c | 0 <= c < h * w
      ensures SameCell(u, s, c, b)
    {
      Fits(c, h * w, b);
      var y, x := RowOf(c, h, w);
      Transposed(s, h, w, b, y, x);
      Transposed(t, w, h, b, x, y);
    }
    SameCells(u, s, h * w, b);
  }

  lemma RowOf(c: nat, h: nat, w: nat) returns (y: nat, x: nat)
    requires c < h * w
    ensures y < h && x < w && c == y * w + x
  {
    y, x := c / w, c % w;
    assert c == y * w + x;
    assert (y - h) * w == y * w - h * w;
    MultipleAtLeast(y - h, w);
  }

  /** Reordering is undone by reordering with h and w exchanged, whatever the length. */
  lemma {:induction false} ReorderUndone(s: seq<byte>, h: nat, w: nat, b: nat)
    requires h * w * b > 0
    ensures w * h * b == h * w * b
    ensures Reordered(Reordered(s, h, w, b), w, h, b) == s
    decreases |s|
  {
    assert w * h == h * w;
    var n := h * w * b;
    if |s| >= n {
      var t := Reordered(s, h, w, b);
      var rest := Reordered(s[n..], h, w, b);
      assert t[..n] == Block(s[..n], h, w, b) && t[n..] == rest;
      BlockUndone(s[..n], h, w, b);
      ReorderUndone(s[n..], h, w, b);
      assert s == s[..n] + s[n..];
    }
  }

  // ----- nothing is lost -----

  /** The first `x` cells of row `y`. */
  function Row(s: seq<byte>, h: nat, w: nat, b: nat, y: nat, x: nat): (r: seq<byte>)
    requires y < h && x <= w && |s| == h * w * b
    ensures |r| == x * b
  {
    RowFits(y, x, h, w, b);
    Grows(0, x, b);
    s[y * w * b..y * w * b + x * b]
  }

  /** One more row adds the cells of that row, left to right. */
  lemma {:induction false} RowAdded(s: seq<byte>, h: nat, w: nat, b: nat, x: nat, y: nat)
    requires y < h && x <= w && |s| == h * w * b
    ensures multiset(Columns(s, h, w, b, x, y + 1))
         == multiset(Columns(s, h, w, b, x, y)) + multiset(Row(s, h, w, b, y, x))
    decreases x
  {
    hide *;
    if x == 0 {
      NothingYet(s, h, w, b, y);
      NothingYet(s, h, w, b, y + 1);
    } else {
      RowAdded(s, h, w, b, x - 1, y);
      RowGrows(s, h, w, b, x - 1, y);
      ColumnGrows(s, h, w, b, x - 1, y);
      ColumnsGrow(s, h, w, b, x - 1, y);
      ColumnsGrow(s, h, w, b, x - 1, y + 1);
    }
  }

  lemma NothingYet(s: seq<byte>, h: nat, w: nat, b: nat, y: nat)
    requires y <= h && |s| == h * w * b
    ensures Columns(s, h, w, b, 0, y) == []
    ensures y < h ==> Row(s, h, w, b, y, 0) == []
  {
    hide Column;
  }

  lemma ColumnsGrow(s: seq<byte>, h: nat, w: nat, b: nat, x: nat, y: nat)
    requires y <= h && x < w && |s| == h * w * b
    ensures multiset(Columns(s, h, w, b, x + 1, y))
         == multiset(Columns(s, h, w, b, x, y)) + multiset(Column(s, h, w, b, x, y))
  {
    hide Column;
  }

  lemma ColumnGrows(s: seq<byte>, h: nat, w: nat, b: nat, x: nat, y: nat)
    requires y < h && x < w && |s| == h * w * b
    ensures multiset(Column(s, h, w, b, x, y + 1))
         == multiset(Column(s, h, w, b, x, y)) + multiset(At(s, h, w, b, y, x))
  {
    hide At;
  }

  lemma RowGrows(s: seq<byte>, h: nat, w: nat, b: nat, x: nat, y: nat)
    requires y < h && x < w && |s| == h * w * b
    ensures multiset(Row(s, h, w, b, y, x + 1)) == multiset(Row(s, h, w, b, y, x)) + multiset(At(s, h, w, b, y, x))
  {
    RowExtended(s, h, w, b, x, y);
  }

  lemma RowExtended(s: seq<byte>, h: nat, w: nat, b: nat, x: nat, y: nat)
    requires y < h && x < w && |s| == h * w * b
    ensures Row(s, h, w, b, y, x + 1) == Row(s, h, w, b, y, x) + At(s, h, w, b, y, x)
  {
    hide At;
    RowFits(y, x + 1, h, w, b);
    RowFits(y, x, h, w, b);
    AtIsSlice(s, h, w, b, y, x);
    var from, at := y * w * b, y * w * b + x * b;
    assert (y * w + x) * b == at;
    assert (x + 1) * b == x * b + b && x * b >= 0;
    assert s[from..at + b] == s[from..at] + s[at..at + b];
  }

  lemma RowFits(y: nat, x: nat, h: nat, w: nat, b: nat)
    requires y < h && x <= w
    ensures 0 <= y * w * b && y * w * b + x * b <= h * w * b
  {
    Fits(y, h, w);
    assert (y * w + x) * b == y * w * b + x * b;
    Grows(y * w + x, h * w, b);
    Grows(y * w, y * w, b);
  }

  lemma {:induction false} RowsKeepBytes(s: seq<byte>, h: nat, w: nat, b: nat, y: nat)
    requires y <= h && |s| == h * w * b
    ensures 0 <= y * w * b <= |s|
    ensures multiset(Columns(s, h, w, b, w, y)) == multiset(s[..y * w * b])
    decreases y
  {
    hide Columns, Row;
    if y == 0 {
      assert y * w == w * y == 0 && w * y * b == 0;
      assert Columns(s, h, w, b, w, y) == [];
    } else {
      RowsKeepBytes(s, h, w, b, y - 1);
      RowAdded(s, h, w, b, w, y - 1);
      RowsLonger(s, h, w, b, y - 1);
    }
  }

  lemma RowsLonger(s: seq<byte>, h: nat, w: nat, b: nat, y: nat)
    requires y < h && |s| == h * w * b
    ensures 0 <= y * w * b <= (y + 1) * w * b <= |s|
    ensures multiset(s[..(y + 1) * w * b]) == multiset(s[..y * w * b]) + multiset(Row(s, h, w, b, y, w))
  {
    var from, rest := y * w * b, w * b;
    RowLength(y + 1, w, b);
    RowFits(y, w, h, w, b);
    Grows(0, w, b);
    assert s[..from + rest] == s[..from] + s[from..from + rest];
  }

  lemma RowLength(y: nat, w: nat, b: nat)
    ensures y * w * b == (y - 1) * w * b + w * b
  {
  }

  /** Reordering permutes the bytes of the buffer and leaves what follows the last full block alone. */
  lemma {:induction false} ReorderPermutes(s: seq<byte>, h: nat, w: nat, b: nat)
    requires h * w * b > 0
    ensures multiset(Reordered(s, h, w, b)) == multiset(s)
    ensures Reordered(s, h, w, b)[|s| - |s| % (h * w * b)..] == s[|s| - |s| % (h * w * b)..]
    decreases |s|
  {
    var n := h * w * b;
    if |s| >= n {
      RowsKeepBytes(s[..n], h, w, b, h);
      assert s[..n][..n] == s[..n];
      ReorderPermutes(s[n..], h, w, b);
      assert s == s[..n] + s[n..];
      OneBlockLess(|s|, n);
      var at := |s| - |s| % n;
      assert Reordered(s, h, w, b)[at..] == Reordered(s[n..], h, w, b)[at - n..];
      assert s[at..] == s[n..][at - n..];
    } else {
      assert |s| % n == |s|;
    }
  }

  lemma OneBlockLess(len: nat, n: nat)
    requires 0 < n <= len
    ensures (len - n) % n == len % n && len % n <= len - n
  {
    AddMultiple(len, -1, n);
  }

  // ----- the code -----

  /** `asf_reorder`: the first `len` bytes of `src` are reordered. */
  method Reorder(src: array<byte>, len: nat, h: nat, w: nat, b: nat)
    requires len <= src.Length && h * w * b > 0
    modifies src
    ensures src[..len] == Reordered(old(src[..len]), h, w, b)
    ensures src[len..] == old(src[len..])
  {
    hide Reordered;
    var dst := new byte[len];
    var i := ReorderBlocks(src, dst, len, h, w, b);
    var _ := CopyCell(dst, src, 0, 0, dst[..i], i);
    assert src[..len] == dst[..i] + src[i..len];
  }

  /** The loop over the full blocks; `i` bytes are filled. */
  method ReorderBlocks(src: array<byte>, dst: array<byte>, len: nat, h: nat, w: nat, b: nat) returns (i: nat)
    requires len == dst.Length <= src.Length && src != dst && h * w * b > 0
    modifies dst
    ensures i <= len && dst[..i] + src[i..len] == Reordered(src[..len], h, w, b)
  {
    hide Block, Reordered;
    var s2, n := 0, h * w * b;
    i := 0;
    ghost var s := src[..len];
    assert s[0..] == s;
    while len - i >= n
      invariant i == s2 <= len
      invariant Reordered(s, h, w, b) == dst[..i] + Reordered(s[i..], h, w, b)
      decreases len - i
    {
      NextBlock(s, i, dst[..i], h, w, b, n);
      ghost var block := s[i..i + n];
      assert src[s2..s2 + n] == block;
      i := CopyBlock(src, dst, s2, i, block, h, w, b);
      s2 := s2 + n;
    }
    ShortRest(s[i..], h, w, b);
    assert s[i..] == src[i..len];
  }

  lemma NextBlock(s: seq<byte>, i: nat, done: seq<byte>, h: nat, w: nat, b: nat, n: nat)
    requires n == h * w * b > 0 && i + n <= |s|
    ensures done + Reordered(s[i..], h, w, b) == (done + Block(s[i..i + n], h, w, b)) + Reordered(s[i + n..], h, w, b)
  {
    hide Block;
    assert s[i..][..n] == s[i..i + n] && s[i..][n..] == s[i + n..];
  }

  lemma ShortRest(s: seq<byte>, h: nat, w: nat, b: nat)
    requires 0 < h * w * b && |s| < h * w * b
    ensures Reordered(s, h, w, b) == s
  {
  }

  /** The two loops over one block. */
  method CopyBlock(src: array<byte>, dst: array<byte>, s2: nat, start: nat, ghost block: seq<byte>,
                   h: nat, w: nat, b: nat)
    returns (i: nat)
    requires |block| == h * w * b && src != dst
    requires s2 + |block| <= src.Length && src[s2..s2 + |block|] == block
    requires start + h * w * b <= dst.Length
    modifies dst
    ensures i == start + h * w * b
    ensures dst[..i] == old(dst[..start]) + Block(block, h, w, b)
  {
    hide Column;
    i := start;
    for x := 0 to w
      invariant i == start + x * h * b <= dst.Length
      invariant dst[..i] == old(dst[..start]) + Columns(block, h, w, b, x, h)
      invariant src[s2..s2 + |block|] == block
    {
      ColumnRoom(x, h, w, b);
      i := CopyColumn(src, dst, s2, i, block, h, w, b, x);
    }
    assert w * h == h * w;
  }

  lemma ColumnRoom(x: nat, h: nat, w: nat, b: nat)
    requires x < w
    ensures x * h * b + h * b == (x + 1) * h * b <= h * w * b
  {
  }

  /** The inner loop over the rows of one column. */
  method CopyColumn(src: array<byte>, dst: array<byte>, s2: nat, start: nat, ghost block: seq<byte>,
                    h: nat, w: nat, b: nat, x: nat)
    returns (i: nat)
    requires x < w && |block| == h * w * b && src != dst
    requires s2 + |block| <= src.Length && src[s2..s2 + |block|] == block
    requires start + h * b <= dst.Length
    modifies dst
    ensures i == start + h * b
    ensures dst[..i] == old(dst[..start]) + Column(block, h, w, b, x, h)
  {
    hide At, Column;
    i := start;
    ColumnStart(block, h, w, b, x);
    for y := 0 to h
      invariant i == start + y * b <= dst.Length
      invariant dst[..i] == old(dst[..start]) + Column(block, h, w, b, x, y)
      invariant src[s2..s2 + |block|] == block
    {
      var at := CellOffset(y, x, h, w, b);
      AtIsSlice(block, h, w, b, y, x);
      Fits(y, h, b);
      NextCell(block, h, w, b, x, y);
      i := CopyCell(src, dst, s2 + at, i, At(block, h, w, b, y, x), b);
    }
  }

  lemma ColumnStart(s: seq<byte>, h: nat, w: nat, b: nat, x: nat)
    requires x < w && |s| == h * w * b
    ensures Column(s, h, w, b, x, 0) == [] && 0 * b == 0
  {
  }

  lemma NextCell(s: seq<byte>, h: nat, w: nat, b: nat, x: nat, y: nat)
    requires y < h && x < w && |s| == h * w * b
    ensures Column(s, h, w, b, x, y + 1) == Column(s, h, w, b, x, y) + At(s, h, w, b, y, x)
    ensures (y + 1) * b == y * b + b
  {
    hide At;
  }

  /** The offset the source computes for a cell. */
  function CellOffset(y: nat, x: nat, h: nat, w: nat, b: nat): (r: nat)
    requires y < h && x < w
    ensures r == (y * w + x) * b && r + b <= h * w * b
  {
    GridFits(y, x, h, w);
    Fits(y * w + x, h * w, b);
    (y * w + x) * b
  }

  /** One `memcpy`. */
  method CopyCell(src: array<byte>, dst: array<byte>, from: nat, start: nat, ghost cell: seq<byte>, b: nat)
    returns (i: nat)
    requires src != dst && from + b <= src.Length && start + b <= dst.Length && cell == src[from..from + b]
    modifies dst
    ensures i == start + b && dst[..i] == old(dst[..start]) + cell
    ensures forall k :: i <= k < dst.Length ==> dst[k] == old(dst[k])
  {
    forall k | 0 <= k < b {
      dst[start + k] := src[from + k];
    }
    i := start + b;
  }
}
