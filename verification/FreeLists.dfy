/** Address-ordered lists of free blocks, as sequences. */
module FreeLists {
  import opened Wrappers

  const MIN_FREE_BLOCK_SIZE := 8

  datatype Block = Block(start: nat, size: nat)
  {
    function End(): nat { start + size }
    predicate Covers(x: nat) { start <= x < start + size }
  }

  type Blocks = seq<Block>

  /** Blocks in address order, not overlapping, none below the minimum size. */
  ghost predicate Ordered(fs: Blocks)
  {
    && (forall i | 0 <= i < |fs| :: fs[i].size >= MIN_FREE_BLOCK_SIZE && fs[i].start > 0)
    && (forall i, j | 0 <= i < j < |fs| :: fs[i].End() <= fs[j].start)
  }

  /** ... and no block but those at the given positions touches another. */
  ghost predicate ApartBut(fs: Blocks, but: set<int>)
  {
    forall i, j | 0 <= i < j < |fs| && i !in but :: fs[i].End() < fs[j].start
  }

  /** A coalesced list. */
  ghost predicate Normal(fs: Blocks) { Ordered(fs) && ApartBut(fs, {}) }

  /** Byte x is free. */
  ghost predicate FreeAt(fs: Blocks, x: nat)
  {
    exists i: nat :: i < |fs| && fs[i].Covers(x)
  }

  lemma Covered(fs: Blocks, i: nat, x: nat)
    requires i < |fs| && fs[i].Covers(x)
    ensures FreeAt(fs, x)
  {
  }

  /** In a coalesced list the bytes below the second block are those of the first. */
  lemma FirstBlock(fs: Blocks, x: nat)
    requires Normal(fs) && fs != []
    ensures FreeAt(fs, x) <==> fs[0].Covers(x) || FreeAt(fs[1..], x)
    ensures FreeAt(fs[1..], x) ==> x > fs[0].End()
    ensures FreeAt(fs, x) ==> x >= fs[0].start
    ensures !FreeAt(fs, fs[0].End()) && Normal(fs[1..])
  {
    forall y: nat | FreeAt(fs[1..], y) ensures FreeAt(fs, y) && y > fs[0].End() {
      var i: nat :| i < |fs[1..]| && fs[1..][i].Covers(y);
      assert fs[i + 1].Covers(y);
      assert fs[1].start <= fs[i + 1].start;
    }
    forall y: nat | FreeAt(fs, y) ensures fs[0].Covers(y) || FreeAt(fs[1..], y) {
      var i: nat :| i < |fs| && fs[i].Covers(y);
      if i > 0 { assert fs[1..][i - 1].Covers(y); }
    }
    assert fs[0].Covers(x) ==> FreeAt(fs, x);
    forall i, j | 0 <= i < j < |fs[1..]| ensures fs[1..][i].End() < fs[1..][j].start {
      assert fs[i + 1].End() < fs[j + 1].start;
    }
  }

  /** A coalesced list is determined by the bytes that are free. */
  lemma {:induction false} Canonical(fs: Blocks, gs: Blocks)
    requires Normal(fs) && Normal(gs)
    requires forall x: nat :: FreeAt(fs, x) <==> FreeAt(gs, x)
    ensures fs == gs
    decreases |fs|
  {
    if fs == [] {
      if gs != [] { assert gs[0].Covers(gs[0].start); assert FreeAt(gs, gs[0].start); }
    } else {
      assert fs[0].Covers(fs[0].start);
      assert FreeAt(fs, fs[0].start);
      var i: nat :| i < |gs| && gs[i].Covers(fs[0].start);
      SameFirst(fs, gs);
      forall x: nat ensures FreeAt(fs[1..], x) <==> FreeAt(gs[1..], x) {
        FirstBlock(fs, x);
        FirstBlock(gs, x);
      }
      FirstBlock(fs, 0);
      FirstBlock(gs, 0);
      Canonical(fs[1..], gs[1..]);
      assert fs == [fs[0]] + fs[1..] && gs == [gs[0]] + gs[1..];
    }
  }

  lemma SameFirst(fs: Blocks, gs: Blocks)
    requires Normal(fs) && Normal(gs) && fs != [] && gs != []
    requires forall x: nat :: FreeAt(fs, x) <==> FreeAt(gs, x)
    ensures fs[0] == gs[0]
  {
    CoveredFirst(fs, fs[0].start);
    CoveredFirst(gs, gs[0].start);
    FirstBlock(fs, gs[0].start);
    FirstBlock(gs, fs[0].start);
    CoveredFirst(gs, fs[0].End());
    CoveredFirst(fs, gs[0].End());
    FirstBlock(fs, fs[0].End());
    FirstBlock(gs, gs[0].End());
  }

  lemma CoveredFirst(fs: Blocks, x: nat)
    requires fs != []
    ensures fs[0].Covers(x) ==> FreeAt(fs, x)
  {
    if fs[0].Covers(x) { Covered(fs, 0, x); }
  }

  lemma SizeAt(fs: Blocks, i: nat)
    requires Ordered(fs) && i < |fs|
    ensures fs[i].size >= MIN_FREE_BLOCK_SIZE && fs[i].start > 0
  {
  }

  lemma OrderAt(fs: Blocks, but: set<int>, i: nat, j: nat)
    requires Ordered(fs) && ApartBut(fs, but) && i < j < |fs|
    ensures fs[i].End() <= fs[j].start && (i !in but ==> fs[i].End() < fs[j].start)
  {
  }

  // ----- insertion -----

  /** Where a block with that start goes. */
  ghost predicate Position(fs: Blocks, k: nat, start: nat)
  {
    && k <= |fs|
    && (forall i | 0 <= i < k :: fs[i].start < start)
    && (forall i | k <= i < |fs| :: start < fs[i].start)
  }

  /** The block overlaps no free block. */
  ghost predicate Clear(fs: Blocks, b: Block)
  {
    forall x: nat | b.Covers(x) :: !FreeAt(fs, x)
  }

  function Inserted(fs: Blocks, k: nat, b: Block): Blocks
    requires k <= |fs|
  {
    fs[..k] + [b] + fs[k..]
  }

  lemma InsertedAt(fs: Blocks, k: nat, b: Block, i: nat)
    requires k <= |fs| && i <= |fs|
    ensures |Inserted(fs, k, b)| == |fs| + 1
    ensures Inserted(fs, k, b)[i] == if i < k then fs[i] else if i == k then b else fs[i - 1]
  {
  }

  /** Free blocks before the position end before the block, those after it start after. */
  lemma InsertedBetween(fs: Blocks, k: nat, b: Block, i: nat)
    requires Ordered(fs) && Position(fs, k, b.start) && Clear(fs, b) && b.size > 0 && i < |fs|
    ensures if i < k then fs[i].End() <= b.start && fs[i].start < b.start else b.End() <= fs[i].start
  {
    SizeAt(fs, i);
    if i < k {
      if fs[i].Covers(b.start) { Covered(fs, i, b.start); assert b.Covers(b.start); }
    } else {
      if b.Covers(fs[i].start) { Covered(fs, i, fs[i].start); }
    }
  }

  lemma InsertedOrdered(fs: Blocks, k: nat, b: Block)
    requires Normal(fs) && Position(fs, k, b.start) && Clear(fs, b)
    requires b.size >= MIN_FREE_BLOCK_SIZE && b.start > 0
    ensures Ordered(Inserted(fs, k, b)) && ApartBut(Inserted(fs, k, b), {k - 1, k})
  {
    var r := Inserted(fs, k, b);
    InsertedAt(fs, k, b, k);
    hide Inserted, Clear;
    forall i: nat | i < |r| ensures r[i].size >= MIN_FREE_BLOCK_SIZE && r[i].start > 0 {
      InsertedAt(fs, k, b, i);
    }
    forall i: nat, j: nat | i < j < |r|
      ensures r[i].End() <= r[j].start
      ensures i !in {k - 1, k} ==> r[i].End() < r[j].start
    {
      InsertedPair(fs, k, b, i, j);
    }
  }

  lemma InsertedPair(fs: Blocks, k: nat, b: Block, i: nat, j: nat)
    requires Normal(fs) && Position(fs, k, b.start) && Clear(fs, b) && b.size > 0 && i < j <= |fs| && k <= |fs|
    ensures |Inserted(fs, k, b)| == |fs| + 1
    ensures var r := Inserted(fs, k, b);
      r[i].End() <= r[j].start && (i !in {k - 1, k} ==> r[i].End() < r[j].start)
  {
    hide Inserted, Clear, Ordered, ApartBut, Position;
    InsertedAt(fs, k, b, i);
    InsertedAt(fs, k, b, j);
    if i < k { InsertedBetween(fs, k, b, i); } else if i > k { OrderAt(fs, {}, i - 1, j - 1); }
    if j > k { InsertedBetween(fs, k, b, j - 1); }
    if i < k && j < k { OrderAt(fs, {}, i, j); }
    if i < k - 1 && j >= k { OrderAt(fs, {}, i, k - 1); InsertedBetween(fs, k, b, k - 1); }
    if i < k && j > k { OrderAt(fs, {}, i, j - 1); }
  }

  lemma InsertedCovers(fs: Blocks, k: nat, b: Block)
    requires k <= |fs|
    ensures forall x: nat :: FreeAt(Inserted(fs, k, b), x) <==> FreeAt(fs, x) || b.Covers(x)
  {
    var r := Inserted(fs, k, b);
    forall x: nat ensures FreeAt(r, x) <==> FreeAt(fs, x) || b.Covers(x) {
      if FreeAt(r, x) {
        var i: nat :| i < |r| && r[i].Covers(x);
        if i < k { Covered(fs, i, x); } else if i > k { Covered(fs, i - 1, x); }
      }
      if b.Covers(x) { assert r[k] == b; Covered(r, k, x); }
      if FreeAt(fs, x) {
        var i: nat :| i < |fs| && fs[i].Covers(x);
        if i < k { assert r[i] == fs[i]; Covered(r, i, x); } else { assert r[i + 1] == fs[i]; Covered(r, i + 1, x); }
      }
    }
  }

  /** Block k and its successor made one when they touch. */
  function Coalesced(fs: Blocks, k: nat): Blocks
    requires k < |fs|
  {
    if k + 1 < |fs| && fs[k].End() == fs[k + 1].start
    then fs[..k] + [Block(fs[k].start, fs[k].size + fs[k + 1].size)] + fs[k + 2..]
    else fs
  }

  lemma CoalescedAt(fs: Blocks, k: nat, i: nat)
    requires k + 1 < |fs| && fs[k].End() == fs[k + 1].start && i < |fs| - 1
    ensures |Coalesced(fs, k)| == |fs| - 1
    ensures Coalesced(fs, k)[i] ==
      if i < k then fs[i] else if i == k then Block(fs[k].start, fs[k].size + fs[k + 1].size) else fs[i + 1]
  {
  }

  lemma CoalescedOrdered(fs: Blocks, k: nat, but: set<int>)
    requires Ordered(fs) && ApartBut(fs, but + {k}) && k < |fs| && forall i | i in but :: i < k
    ensures Ordered(Coalesced(fs, k)) && ApartBut(Coalesced(fs, k), but)
  {
    var r := Coalesced(fs, k);
    if k + 1 < |fs| && fs[k].End() == fs[k + 1].start {
      hide Coalesced, ApartBut;
      CoalescedAt(fs, k, k);
      forall i | 0 <= i < |r| ensures r[i].size >= MIN_FREE_BLOCK_SIZE && r[i].start > 0 {
        CoalescedAt(fs, k, i);
      }
      forall i: nat, j: nat | i < j < |r|
        ensures r[i].End() <= r[j].start
        ensures i !in but ==> r[i].End() < r[j].start
      {
        CoalescedPair(fs, k, but, i, j);
      }
    } else {
      NotTouching(fs, k, but);
    }
  }

  lemma NotTouching(fs: Blocks, k: nat, but: set<int>)
    requires Ordered(fs) && ApartBut(fs, but + {k}) && k < |fs|
    requires k + 1 < |fs| ==> fs[k].End() != fs[k + 1].start
    ensures ApartBut(fs, but)
  {
    forall j: nat | k < j < |fs| ensures fs[k].End() < fs[j].start {
      if j > k + 1 {
        OrderAt(fs, but + {k}, k + 1, j);
        SizeAt(fs, k + 1);
        OrderAt(fs, but + {k}, k, k + 1);
      }
    }
  }

  lemma CoalescedPair(fs: Blocks, k: nat, but: set<int>, i: nat, j: nat)
    requires Ordered(fs) && ApartBut(fs, but + {k}) && forall i | i in but :: i < k
    requires k + 1 < |fs| && fs[k].End() == fs[k + 1].start && i < j < |fs| - 1
    ensures |Coalesced(fs, k)| == |fs| - 1
    ensures var r := Coalesced(fs, k);
      r[i].End() <= r[j].start && (i !in but ==> r[i].End() < r[j].start)
  {
    hide Coalesced, Ordered, ApartBut;
    CoalescedAt(fs, k, i);
    CoalescedAt(fs, k, j);
    OrderAt(fs, but + {k}, if i < k then i else i + 1, if j <= k then j else j + 1);
  }

  lemma CoalescedCovers(fs: Blocks, k: nat)
    requires k < |fs|
    ensures forall x: nat :: FreeAt(Coalesced(fs, k), x) <==> FreeAt(fs, x)
  {
    var r := Coalesced(fs, k);
    if r != fs {
      forall x: nat ensures FreeAt(r, x) <==> FreeAt(fs, x) {
        if FreeAt(r, x) {
          var i: nat :| i < |r| && r[i].Covers(x);
          if i < k { Covered(fs, i, x); }
          else if i > k { Covered(fs, i + 1, x); }
          else if fs[k].Covers(x) { Covered(fs, k, x); }
          else { Covered(fs, k + 1, x); }
        }
        if FreeAt(fs, x) {
          var i: nat :| i < |fs| && fs[i].Covers(x);
          if i < k { assert r[i] == fs[i]; Covered(r, i, x); }
          else if i <= k + 1 { Covered(r, k, x); }
          else { assert r[i - 1] == fs[i]; Covered(r, i - 1, x); }
        }
      }
    }
  }

  // ----- taking from a block -----

  /** Block k gives way to what is left of it on either side of an allocation. */
  function Carved(fs: Blocks, k: nat, rest: Blocks): Blocks
    requires k < |fs|
  {
    fs[..k] + rest + fs[k + 1..]
  }

  /** The pieces of b around [lo, hi) that are big enough to keep. */
  function Pieces(b: Block, lo: nat, hi: nat): (r: Blocks)
    requires b.start <= lo <= hi <= b.End()
    ensures |r| <= 2
  {
    (if lo > b.start then [Block(b.start, lo - b.start)] else [])
    + if hi < b.End() then [Block(hi, b.End() - hi)] else []
  }

  lemma CarvedAt(fs: Blocks, k: nat, rest: Blocks, i: nat)
    requires k < |fs| && i < |fs| - 1 + |rest|
    ensures |Carved(fs, k, rest)| == |fs| - 1 + |rest|
    ensures Carved(fs, k, rest)[i] == if i < k then fs[i] else if i < k + |rest| then rest[i - k] else fs[i - |rest| + 1]
  {
  }

  /** The pieces lie inside the block, apart from each other. */
  lemma PiecesFit(b: Block, lo: nat, hi: nat)
    requires b.start <= lo < hi <= b.End() && b.start > 0
    requires lo == b.start || lo - b.start >= MIN_FREE_BLOCK_SIZE
    requires hi == b.End() || b.End() - hi >= MIN_FREE_BLOCK_SIZE
    ensures InPieces(b, Pieces(b, lo, hi))
  {
  }

  lemma CarvedNormal(fs: Blocks, k: nat, lo: nat, hi: nat)
    requires Normal(fs) && k < |fs| && fs[k].start <= lo < hi <= fs[k].End()
    requires lo == fs[k].start || lo - fs[k].start >= MIN_FREE_BLOCK_SIZE
    requires hi == fs[k].End() || fs[k].End() - hi >= MIN_FREE_BLOCK_SIZE
    ensures Normal(Carved(fs, k, Pieces(fs[k], lo, hi)))
  {
    hide Pieces, Carved;
    PiecesFit(fs[k], lo, hi);
    var rest := Pieces(fs[k], lo, hi);
    var r := Carved(fs, k, rest);
    CarvedLength(fs, k, rest);
    forall i | 0 <= i < |r| ensures r[i].size >= MIN_FREE_BLOCK_SIZE && r[i].start > 0 {
      CarvedSize(fs, k, rest, i);
    }
    forall i, j | 0 <= i < j < |r| ensures r[i].End() < r[j].start {
      CarvedPair(fs, k, rest, i, j);
    }
  }

  /** The pieces lie in block k, apart, and are big enough. */
  ghost predicate InPieces(b: Block, rest: Blocks)
  {
    && (forall i | 0 <= i < |rest| ::
          rest[i].size >= MIN_FREE_BLOCK_SIZE && b.start <= rest[i].start && rest[i].End() <= b.End())
    && (forall i, j | 0 <= i < j < |rest| :: rest[i].End() < rest[j].start)
  }

  lemma CarvedSize(fs: Blocks, k: nat, rest: Blocks, i: nat)
    requires Normal(fs) && k < |fs| && InPieces(fs[k], rest) && i < |fs| - 1 + |rest|
    ensures |Carved(fs, k, rest)| == |fs| - 1 + |rest|
    ensures Carved(fs, k, rest)[i].size >= MIN_FREE_BLOCK_SIZE && Carved(fs, k, rest)[i].start > 0
  {
    hide Carved;
    CarvedAt(fs, k, rest, i);
    SizeAt(fs, k);
  }

  lemma CarvedPair(fs: Blocks, k: nat, rest: Blocks, i: nat, j: nat)
    requires Normal(fs) && k < |fs| && InPieces(fs[k], rest) && i < j < |fs| - 1 + |rest|
    ensures |Carved(fs, k, rest)| == |fs| - 1 + |rest|
    ensures Carved(fs, k, rest)[i].End() < Carved(fs, k, rest)[j].start
  {
    hide Carved;
    CarvedAt(fs, k, rest, i);
    CarvedAt(fs, k, rest, j);
    hide InPieces;
    BeforeIn(fs, k, rest, i, j);
  }

  lemma BeforeIn(fs: Blocks, k: nat, rest: Blocks, i: nat, j: nat)
    requires Normal(fs) && k < |fs| && InPieces(fs[k], rest) && i < j < |fs| - 1 + |rest|
    ensures
      var x := if i < k then fs[i] else if i < k + |rest| then rest[i - k] else fs[i - |rest| + 1];
      var y := if j < k then fs[j] else if j < k + |rest| then rest[j - k] else fs[j - |rest| + 1];
      x.End() < y.start
  {
    var i' := if i < k then i else if i < k + |rest| then k else i - |rest| + 1;
    var j' := if j < k then j else if j < k + |rest| then k else j - |rest| + 1;
    if i' < j' { OrderAt(fs, {}, i', j'); }
  }

  lemma CarvedLength(fs: Blocks, k: nat, rest: Blocks)
    requires k < |fs|
    ensures |Carved(fs, k, rest)| == |fs| - 1 + |rest|
  {
  }

  /** Which bytes the pieces keep. */
  lemma PiecesCover(b: Block, lo: nat, hi: nat, x: nat)
    requires b.start <= lo < hi <= b.End()
    ensures FreeAt(Pieces(b, lo, hi), x) <==> b.Covers(x) && !(lo <= x < hi)
  {
    var r := Pieces(b, lo, hi);
    if b.Covers(x) && x < lo { Covered(r, 0, x); }
    if b.Covers(x) && x >= hi { Covered(r, |r| - 1, x); }
  }

  /** Only block k covers what it covers. */
  lemma OneCover(fs: Blocks, i: nat, j: nat, x: nat)
    requires Normal(fs) && i < |fs| && j < |fs| && fs[i].Covers(x) && fs[j].Covers(x)
    ensures i == j
  {
  }

  lemma CarvedCovers(fs: Blocks, k: nat, lo: nat, hi: nat, x: nat)
    requires Normal(fs) && k < |fs| && fs[k].start <= lo < hi <= fs[k].End()
    ensures FreeAt(Carved(fs, k, Pieces(fs[k], lo, hi)), x) <==> FreeAt(fs, x) && !(lo <= x < hi)
  {
    hide Pieces, Carved, Normal, FreeAt;
    PiecesCover(fs[k], lo, hi, x);
    if FreeAt(Carved(fs, k, Pieces(fs[k], lo, hi)), x) {
      CarvedWasFree(fs, k, Pieces(fs[k], lo, hi), lo, hi, x);
    }
    if FreeAt(fs, x) && !(lo <= x < hi) {
      CarvedStaysFree(fs, k, Pieces(fs[k], lo, hi), x);
    }
  }

  lemma CarvedWasFree(fs: Blocks, k: nat, rest: Blocks, lo: nat, hi: nat, x: nat)
    requires Normal(fs) && k < |fs| && FreeAt(Carved(fs, k, rest), x) && fs[k].start <= lo < hi <= fs[k].End()
    requires FreeAt(rest, x) <==> fs[k].Covers(x) && !(lo <= x < hi)
    ensures FreeAt(fs, x) && !(lo <= x < hi)
  {
    hide Carved, Normal;
    var r := Carved(fs, k, rest);
    CarvedLength(fs, k, rest);
    var i: nat :| i < |r| && r[i].Covers(x);
    CarvedAt(fs, k, rest, i);
    if k <= i < k + |rest| {
      Covered(rest, i - k, x);
      Covered(fs, k, x);
    } else {
      var j := if i < k then i else i - |rest| + 1;
      Covered(fs, j, x);
      if lo <= x < hi { OneCover(fs, j, k, x); }
    }
  }

  lemma CarvedStaysFree(fs: Blocks, k: nat, rest: Blocks, x: nat)
    requires k < |fs| && FreeAt(fs, x) && (fs[k].Covers(x) ==> FreeAt(rest, x))
    ensures FreeAt(Carved(fs, k, rest), x)
  {
    hide Carved;
    var r := Carved(fs, k, rest);
    CarvedLength(fs, k, rest);
    var i: nat :| i < |fs| && fs[i].Covers(x);
    if i == k {
      var j: nat :| j < |rest| && rest[j].Covers(x);
      CarvedAt(fs, k, rest, k + j);
      Covered(r, k + j, x);
    } else {
      var j := if i < k then i else i - 1 + |rest|;
      CarvedAt(fs, k, rest, j);
      Covered(r, j, x);
    }
  }
}
