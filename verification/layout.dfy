/**
 * heca_assign_master_mem: the master lays its memory regions out back to
 * back from the start of guest RAM, in order, stopping at the first region
 * whose start lies beyond the end of guest RAM.
 */
module Layout {
  import opened Types

  /** The total size of the regions. */
  function SizeSum(regions: seq<Region>): nat
    decreases |regions|
  {
    if regions == [] then 0 else SizeSum(regions[..|regions| - 1]) + regions[|regions| - 1].size
  }

  lemma SizeSumSnoc(regions: seq<Region>, j: nat)
    requires j < |regions|
    ensures SizeSum(regions[..j + 1]) == SizeSum(regions[..j]) + regions[j].size
  {
    assert regions[..j + 1][..j] == regions[..j];
  }

  /** The offset of a region from the start of RAM never decreases along the list. */
  lemma {:induction false} SizeSumMonotone(regions: seq<Region>, i: nat, j: nat)
    requires i <= j <= |regions|
    ensures SizeSum(regions[..i]) <= SizeSum(regions[..j])
    decreases j - i
  {
    if i < j {
      SizeSumSnoc(regions, j - 1);
      SizeSumMonotone(regions, i, j - 1);
    }
  }

  /**
   * Region `j` as heca_assign_master_mem leaves it: when the regions before
   * it fit in `ramSize` bytes its start lies inside (or exactly at the end
   * of) guest RAM and it is placed right after them; otherwise untouched.
   */
  function LaidOut(regions: seq<Region>, base: nat, ramSize: nat, j: nat): Region
    requires j < |regions|
  {
    var offset := SizeSum(regions[..j]);
    if offset <= ramSize then regions[j].(addr := base + offset) else regions[j]
  }

  /** Regions before `i` are laid out and all of them start inside RAM; the others are untouched. */
  predicate LaidOutBefore(regions: seq<Region>, cur: seq<Region>, base: nat, ramSize: nat, i: nat) {
    && |cur| == |regions| && i <= |regions|
    && (forall j | 0 <= j < i :: SizeSum(regions[..j]) <= ramSize && cur[j] == LaidOut(regions, base, ramSize, j))
    && (forall j | i <= j < |regions| :: cur[j] == regions[j])
  }

  /** The loop of heca_assign_master_mem from region `i` on, with `pos` the next start. */
  function AssignFrom(cur: seq<Region>, i: nat, pos: nat, end: nat): (int, seq<Region>)
    requires i <= |cur|
    decreases |cur| - i
  {
    if i == |cur| then (0, cur)
    else if pos > end then (-1, cur)
    else AssignFrom(cur[i := cur[i].(addr := pos)], i + 1, pos + cur[i].size, end)
  }

  lemma {:induction false} AssignFromLaysOut(regions: seq<Region>, cur: seq<Region>, base: nat, ramSize: nat, i: nat)
    requires LaidOutBefore(regions, cur, base, ramSize, i)
    ensures var (ret, laid) := AssignFrom(cur, i, base + SizeSum(regions[..i]), base + ramSize);
      && |laid| == |regions|
      && (forall j | 0 <= j < |regions| :: laid[j] == LaidOut(regions, base, ramSize, j))
      && (ret == 0 <==> forall j | 0 <= j < |regions| :: SizeSum(regions[..j]) <= ramSize)
      && (ret == 0 || ret == -1)
    decreases |regions| - i
  {
    if i == |regions| {
    } else if base + SizeSum(regions[..i]) > base + ramSize {
      forall j | i <= j < |regions| ensures ramSize < SizeSum(regions[..j]) {
        SizeSumMonotone(regions, i, j);
      }
    } else {
      var next := cur[i := cur[i].(addr := base + SizeSum(regions[..i]))];
      SizeSumSnoc(regions, i);
      assert LaidOutBefore(regions, next, base, ramSize, i + 1);
      AssignFromLaysOut(regions, next, base, ramSize, i + 1);
    }
  }

  /**
   * heca_assign_master_mem: region `j` is placed at the start of RAM plus
   * the sizes of the regions before it, as long as that start is not
   * beyond the end of RAM; only the start is checked, so a region may
   * reach past the end. The result is -1 when some region is left
   * unplaced, and 0 otherwise.
   */
  function AssignMasterMem(regions: seq<Region>, base: nat, ramSize: nat): (r: (int, seq<Region>))
    ensures |r.1| == |regions|
    ensures forall j | 0 <= j < |regions| :: r.1[j] == LaidOut(regions, base, ramSize, j)
    ensures r.0 == 0 <==> forall j | 0 <= j < |regions| :: SizeSum(regions[..j]) <= ramSize
    ensures r.0 == 0 || r.0 == -1
  {
    AssignFromLaysOut(regions, regions, base, ramSize, 0);
    AssignFrom(regions, 0, base, base + ramSize)
  }

  /** Placed regions do not overlap: each starts where the previous one ends. */
  lemma AssignBackToBack(regions: seq<Region>, base: nat, ramSize: nat, j: nat)
    requires j + 1 < |regions| && SizeSum(regions[..j + 1]) <= ramSize
    ensures var laid := AssignMasterMem(regions, base, ramSize).1;
      laid[j + 1].addr == laid[j].addr + regions[j].size
  {
    SizeSumSnoc(regions, j);
    SizeSumMonotone(regions, j, j + 1);
  }

  /**
   * Only starts are checked: with 10 bytes of RAM, a first region of 10
   * bytes and a second of 5, the second starts exactly at the end of RAM,
   * is placed there and reaches 5 bytes past it; the result is 0.
   */
  lemma AssignChecksStartsOnly(base: nat)
    ensures var a := Region(1, 1, 0, 10, [], false, false);
      var b := Region(1, 2, 0, 5, [], false, false);
      AssignMasterMem([a, b], base, 10) == (0, [a.(addr := base), b.(addr := base + 10)])
  {
    var a := Region(1, 1, 0, 10, [], false, false);
    var b := Region(1, 2, 0, 5, [], false, false);
    var r := AssignMasterMem([a, b], base, 10);
    assert [a, b][..0] == [] && [a, b][..1] == [a];
    assert SizeSum([a]) == 10;
    assert r.1[0] == a.(addr := base) && r.1[1] == b.(addr := base + 10);
    assert r.1 == [a.(addr := base), b.(addr := base + 10)];
  }
}
