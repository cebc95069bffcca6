/** How image creation sizes the zone bitmap: the bitmap's own blocks change how many
    zones there are to map, so the size is found by iteration. */
module CreateLayout {
  import opened Wrappers
  import opened Errors
  import opened Layout
  import Raw = RawImage

  /** One pass of the loop, for n blocks left to the zone bitmap and the data zones. */
  datatype Pass = TooSmall | Settled | Retry(z: nat)

  function Step(n: int, z: nat): Pass
  {
    if z >= n then TooSmall
    else
      var required := BitmapBlocks(n - z + 1);
      if required == z then Settled else Retry(Max(required, 1))
  }

  /** The state after a number of passes; a settled or failed loop stays as it is. */
  function After(n: int, passes: nat): (nat, Pass)
  {
    if passes == 0 then (1, Retry(1))
    else
      var (z, p) := After(n, passes - 1);
      if p.Retry? then (p.z, Step(n, p.z)) else (z, p)
  }

  predicate Ends(n: int, passes: nat) { !After(n, passes).1.Retry? }

  /** The z bitmap blocks hold a bit for each data zone and the reserved bit. */
  predicate Covers(n: int, z: nat) { n - z + 1 <= 8192 * z }

  predicate Smallest(n: int, z: nat) { Covers(n, z) && forall y: nat | y < z :: !Covers(n, y) }

  /** The loop stands still at the smallest size that covers its bits; but for one n in
      8193 that size is no resting point. */
  lemma SettledIsSmallest(n: int, z: nat)
    requires 1 <= z < n
    ensures Step(n, z) == Settled ==> Smallest(n, z)
    ensures Smallest(n, z) ==> (Step(n, z) == Settled <==> n != 8193 * (z - 1))
  {
    if Smallest(n, z) { assert !Covers(n, z - 1); }
  }

  predicate Multiple(n: int) { n > 0 && n % 8193 == 0 }

  /** The three passes of a loop that ends. */
  lemma FirstPasses(n: int)
    requires 1 < n <= 0xFFFF && !Multiple(n)
    ensures Ends(n, 3) && After(n, 3).1 == Settled
    ensures After(n, 3).0 == n / 8193 + 1
  {
    var k, r := n / 8193, n % 8193;
    assert n == 8193 * k + r && k <= 7;
    SettlesAt(n, k + 1);
    assert After(n, 0) == (1, Retry(1));
    assert After(n, 1) == (1, Step(n, 1));
    if k > 0 {
      assert BitmapBlocks(n) == k + 1 || BitmapBlocks(n) == k + 2;
      if BitmapBlocks(n) == k + 2 {
        assert After(n, 2) == (k + 2, Step(n, k + 2));
        assert Step(n, k + 2) == Retry(k + 1);
      } else {
        assert After(n, 2) == (k + 1, Step(n, k + 1));
      }
    }
  }

  lemma SettlesAt(n: int, z: nat)
    requires 8193 * (z - 1) < n < 8193 * z && 1 <= z < n
    ensures Step(n, z) == Settled
  {
  }

  /** For a multiple of 8193 the loop swings between two sizes for ever. */
  lemma {:induction false} Swings(n: int, passes: nat)
    requires Multiple(n) && n <= 0xFFFF && passes > 0
    ensures After(n, passes) == (if passes == 1 then 1 else if passes % 2 == 0 then n / 8193 + 1 else n / 8193,
                                 Retry(if passes % 2 == 0 then n / 8193 else n / 8193 + 1))
  {
    var k := n / 8193;
    assert n == 8193 * k && 1 <= k <= 7;
    assert Step(n, k + 1) == Retry(k);
    assert Step(n, k) == Retry(k + 1);
    if passes == 1 {
      assert After(n, 0) == (1, Retry(1));
      assert Step(n, 1) == Retry(k + 1);
    } else {
      Swings(n, passes - 1);
    }
  }

  /** The loop ends, and then within three passes, exactly when n is no positive multiple
      of 8193; it fails exactly when there is no room for one data zone. */
  lemma LoopEnds(n: int)
    requires n <= 0xFFFF
    ensures (exists passes: nat :: Ends(n, passes)) <==> !Multiple(n)
    ensures !Multiple(n) ==> Ends(n, 3) && (After(n, 3).1 == TooSmall <==> n <= 1)
    ensures !Multiple(n) && n > 1 ==> Smallest(n, After(n, 3).0)
  {
    if Multiple(n) {
      forall passes: nat ensures !Ends(n, passes) {
        if passes > 0 { Swings(n, passes); }
      }
    } else if n > 1 {
      FirstPasses(n);
      SettlesAt(n, n / 8193 + 1);
      SettledIsSmallest(n, n / 8193 + 1);
    } else {
      FailsAtOnce(n);
    }
  }

  lemma FailsAtOnce(n: int)
    requires n <= 1
    ensures After(n, 3) == (1, TooSmall) && Ends(n, 3)
  {
    assert After(n, 0) == (1, Retry(1));
    assert After(n, 1) == (1, TooSmall);
    assert After(n, 2) == (1, TooSmall);
  }

  /** The blocks that neither the zone bitmap nor the fixed metadata takes. */
  function Remaining(imageSize: nat, inodeCount: U16): int
  {
    imageSize / BLOCK_SIZE - (2 + BitmapBlocks(inodeCount + 1) + InodeBlocks(inodeCount))
  }

  /** The options that pass the checks before the loop. */
  predicate ReachesLoop(imageSize: nat, inodeCount: U16)
  {
    && imageSize > 0 && imageSize % BLOCK_SIZE == 0 && imageSize / BLOCK_SIZE <= 0xFFFF
    && inodeCount > 0
  }

  /** Checks the options of a new image and lays out its metadata. */
  method ChooseLayout(imageSize: nat, inodeCount: U16) returns (r: Result<Raw.SuperBlock, Error>)
    requires ReachesLoop(imageSize, inodeCount) ==> !Multiple(Remaining(imageSize, inodeCount))
    ensures r.Ok? <==> ReachesLoop(imageSize, inodeCount) && Remaining(imageSize, inodeCount) > 1
    ensures r.Ok? <==>
      && inodeCount > 0 && imageSize % 1024 == 0 && imageSize <= 65535 * 1024
      && imageSize / 1024 > 3 + BitmapBlocks(inodeCount + 1) + InodeBlocks(inodeCount)
    ensures r.Ok? ==>
      && r.value.Laid()
      && r.value.inodeCount == inodeCount && r.value.zoneCount == imageSize / BLOCK_SIZE
      && Smallest(Remaining(imageSize, inodeCount), r.value.zoneBitmapBlocks)
    ensures r.Err? ==> r.error == InvalidArgument
  {
    if imageSize == 0 || imageSize % BLOCK_SIZE != 0 {
      return Err(InvalidArgument);
    }
    var zoneCount := imageSize / BLOCK_SIZE;
    if zoneCount > 0xFFFF {
      return Err(InvalidArgument);
    }
    if inodeCount == 0 {
      return Err(InvalidArgument);
    }
    var inodeBitmapBlocks := BitmapBlocks(inodeCount + 1);
    var inodeTableBlocks := InodeBlocks(inodeCount);
    var zoneBitmapBlocks: nat := 1;
    ghost var n := Remaining(imageSize, inodeCount);
    ghost var passes := 0;
    LoopEnds(n);
    while true
      invariant passes <= 3
      invariant After(n, passes).1 == Retry(zoneBitmapBlocks)
      invariant zoneBitmapBlocks >= 1
      decreases 3 - passes
    {
      passes := passes + 1;
      var firstDataZone := 2 + inodeBitmapBlocks + zoneBitmapBlocks + inodeTableBlocks;
      if firstDataZone >= zoneCount {
        Stays(n, passes);
        return Err(InvalidArgument);
      }
      var required := BitmapBlocks(zoneCount - firstDataZone + 1);
      if required == zoneBitmapBlocks {
        Stays(n, passes);
        break;
      }
      zoneBitmapBlocks := Max(required, 1);
      if passes == 3 {
        assert false;
      }
    }
    return Ok(Raw.SuperBlock(inodeCount, zoneCount, inodeBitmapBlocks, zoneBitmapBlocks,
                             2 + inodeBitmapBlocks + zoneBitmapBlocks + inodeTableBlocks));
  }

  /** A loop that ended early is where it is after three passes. */
  lemma Stays(n: int, passes: nat)
    requires passes <= 3 && Ends(n, passes)
    ensures After(n, 3) == After(n, passes)
    decreases 3 - passes
  {
    if passes < 3 {
      assert After(n, passes + 1) == After(n, passes);
      Stays(n, passes + 1);
    }
  }
}
