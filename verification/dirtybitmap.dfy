/**
 * The dirty-page bitmap of live migration and its maximal runs of dirty
 * pages. `Runs` finds the runs left to right, as the scan of
 * heca_unmap_dirty_bitmap does; `IsMaximalRuns` says what the runs are
 * without saying how they are found, and the two are proved to agree.
 */
module DirtyBitmap {

  /** One byte of QEMU's migration dirty bitmap per guest page. */
  type Bitmap = seq<bv8>

  /** The bit of a bitmap byte that marks the page dirty for migration. */
  const MIGRATION_DIRTY_FLAG: bv8 := 0x08

  predicate IsDirty(bm: Bitmap, p: nat)
    requires p < |bm|
  {
    bm[p] & MIGRATION_DIRTY_FLAG != 0
  }

  /** A run of `len` pages starting at page `start`. */
  datatype Run = Run(start: nat, len: nat) {
    /** The first page after the run. */
    function End(): nat {
      start + len
    }

    predicate Contains(p: nat) {
      start <= p < End()
    }
  }

  /** The first page at or after `i` that is clean, or the end of the bitmap. */
  function RunEnd(bm: Bitmap, i: nat): (e: nat)
    requires i <= |bm|
    ensures i <= e <= |bm|
    ensures e == |bm| || !IsDirty(bm, e)
    decreases |bm| - i
  {
    if i == |bm| || !IsDirty(bm, i) then i else RunEnd(bm, i + 1)
  }

  /** Every page from `i` up to `RunEnd(bm, i)` is dirty. */
  lemma {:induction false} RunEndDirty(bm: Bitmap, i: nat, p: nat)
    requires i <= |bm| && i <= p < RunEnd(bm, i)
    ensures IsDirty(bm, p)
    decreases |bm| - i
  {
    if p > i {
      RunEndDirty(bm, i + 1, p);
    }
  }

  /** A page where a dirty stretch from `i` ends is the page `RunEnd` finds. */
  lemma {:induction false} RunEndUnique(bm: Bitmap, i: nat, e: nat)
    requires i <= e <= |bm|
    requires forall p | i <= p < e :: IsDirty(bm, p)
    requires e == |bm| || !IsDirty(bm, e)
    ensures RunEnd(bm, i) == e
    decreases e - i
  {
    if i < e {
      RunEndUnique(bm, i + 1, e);
    }
  }

  /** The maximal runs of dirty pages at or after page `i`, left to right. */
  function RunsFrom(bm: Bitmap, i: nat): seq<Run>
    requires i <= |bm|
    decreases |bm| - i
  {
    if i == |bm| then []
    else if !IsDirty(bm, i) then RunsFrom(bm, i + 1)
    else
      var e := RunEnd(bm, i);
      [Run(i, e - i)] + RunsFrom(bm, e)
  }

  /** The maximal runs of dirty pages of the whole bitmap. */
  function Runs(bm: Bitmap): seq<Run> {
    RunsFrom(bm, 0)
  }

  /** Page `p` lies in one of the runs. */
  predicate Covered(rs: seq<Run>, p: nat) {
    exists k | 0 <= k < |rs| :: rs[k].Contains(p)
  }

  /** Every run is non-empty, starts at or after page `i` and ends inside the bitmap. */
  predicate RunsInside(bm: Bitmap, i: nat, rs: seq<Run>) {
    forall k | 0 <= k < |rs| :: rs[k].len > 0 && i <= rs[k].start && rs[k].End() <= |bm|
  }

  /** The runs ascend and a page lies between any two of them: they are disjoint and never adjacent. */
  predicate Separated(rs: seq<Run>) {
    forall j, k | 0 <= j < k < |rs| :: rs[j].End() < rs[k].start
  }

  /** From page `i` on, the pages the runs cover are exactly the dirty pages. */
  predicate CoversDirty(bm: Bitmap, i: nat, rs: seq<Run>) {
    forall p | i <= p < |bm| :: IsDirty(bm, p) <==> Covered(rs, p)
  }

  /**
   * `rs` are the maximal runs of dirty pages from page `i` on: separated
   * non-empty runs inside the bitmap that cover exactly the dirty pages.
   * (Separation makes each run maximal: the page after a run is clean or
   * the end, since a page between two runs is covered by neither.)
   */
  predicate IsMaximalRunsFrom(bm: Bitmap, i: nat, rs: seq<Run>) {
    RunsInside(bm, i, rs) && Separated(rs) && CoversDirty(bm, i, rs)
  }

  predicate IsMaximalRuns(bm: Bitmap, rs: seq<Run>) {
    IsMaximalRunsFrom(bm, 0, rs)
  }

  lemma CoveredCons(r: Run, rs: seq<Run>, p: nat)
    ensures Covered([r] + rs, p) <==> r.Contains(p) || Covered(rs, p)
  {
    var all := [r] + rs;
    assert all[0] == r;
    if Covered(rs, p) {
      var k :| 0 <= k < |rs| && rs[k].Contains(p);
      assert all[k + 1] == rs[k];
    }
    if Covered(all, p) {
      var k :| 0 <= k < |all| && all[k].Contains(p);
      if k > 0 {
        assert rs[k - 1] == all[k];
      }
    }
  }

  /** A covered page is dirty when the runs cover exactly the dirty pages from `i` on. */
  lemma CoveredStart(bm: Bitmap, i: nat, rs: seq<Run>, k: nat)
    requires IsMaximalRunsFrom(bm, i, rs)
    requires k < |rs|
    ensures IsDirty(bm, rs[k].start)
  {
    assert rs[k].Contains(rs[k].start);
  }

  /** The scan's runs from page `i` are the maximal runs from page `i`. */
  lemma {:induction false} RunsFromMaximal(bm: Bitmap, i: nat)
    requires i <= |bm|
    ensures IsMaximalRunsFrom(bm, i, RunsFrom(bm, i))
    decreases |bm| - i
  {
    var rs := RunsFrom(bm, i);
    if i == |bm| {
    } else if !IsDirty(bm, i) {
      RunsFromMaximal(bm, i + 1);
    } else {
      var e := RunEnd(bm, i);
      var r := Run(i, e - i);
      var rest := RunsFrom(bm, e);
      RunsFromMaximal(bm, e);
      assert rs == [r] + rest;
      forall k | 0 <= k < |rest| ensures e < rest[k].start {
        CoveredStart(bm, e, rest, k);
      }
      assert RunsInside(bm, i, rs) by {
        forall k | 0 <= k < |rs| ensures rs[k].len > 0 && i <= rs[k].start && rs[k].End() <= |bm| {
          if k > 0 {
            assert rs[k] == rest[k - 1];
          }
        }
      }
      assert Separated(rs) by {
        forall j, k | 0 <= j < k < |rs| ensures rs[j].End() < rs[k].start {
          assert rs[k] == rest[k - 1];
          if j > 0 {
            assert rs[j] == rest[j - 1];
          }
        }
      }
      forall p | i <= p < |bm| ensures IsDirty(bm, p) <==> Covered(rs, p) {
        CoveredCons(r, rest, p);
        if p < e {
          RunEndDirty(bm, i, p);
        }
      }
    }
  }

  /** Soundness: the scan finds the maximal runs of dirty pages. */
  lemma RunsMaximal(bm: Bitmap)
    ensures IsMaximalRuns(bm, Runs(bm))
  {
    RunsFromMaximal(bm, 0);
  }

  /** Runs that start at or after page `i` and end inside the bitmap leave room after `i`. */
  lemma RunsInsideBound(bm: Bitmap, i: nat, rs: seq<Run>)
    requires RunsInside(bm, i, rs) && rs != []
    ensures i < |bm|
  {
    assert rs[0].len > 0;
  }

  /** When page `i` is dirty, the first maximal run from `i` on starts at `i`. */
  lemma FirstRunStart(bm: Bitmap, i: nat, rs: seq<Run>)
    requires i < |bm| && IsDirty(bm, i)
    requires IsMaximalRunsFrom(bm, i, rs)
    ensures rs != [] && rs[0].start == i
  {
    assert Covered(rs, i);
    var k :| 0 <= k < |rs| && rs[k].Contains(i);
    assert rs[0].len > 0 && i <= rs[0].start;
    if k > 0 {
      assert false;
    }
  }

  /** The first maximal run ends where the dirty stretch from its start ends. */
  lemma FirstRunEnd(bm: Bitmap, i: nat, rs: seq<Run>)
    requires i < |bm| && IsDirty(bm, i)
    requires IsMaximalRunsFrom(bm, i, rs)
    requires rs != [] && rs[0].start == i
    ensures rs[0].End() == RunEnd(bm, i)
  {
    var e := rs[0].End();
    forall p | i <= p < e ensures IsDirty(bm, p) {
      assert rs[0].Contains(p);
    }
    forall j | 0 <= j < |rs| ensures !rs[j].Contains(e) {
      if j > 0 {
        assert rs[0].End() < rs[j].start;
      }
    }
    assert !Covered(rs, e);
    RunEndUnique(bm, i, e);
  }

  /** After its first run, maximal runs are maximal from the end of that run on. */
  lemma RestMaximal(bm: Bitmap, i: nat, rs: seq<Run>)
    requires IsMaximalRunsFrom(bm, i, rs)
    requires rs != []
    ensures IsMaximalRunsFrom(bm, rs[0].End(), rs[1..])
  {
    var r := rs[0];
    var rest := rs[1..];
    var e := r.End();
    assert rs == [r] + rest;
    forall k | 0 <= k < |rest| ensures rest[k].len > 0 && e <= rest[k].start && rest[k].End() <= |bm| {
      assert rest[k] == rs[k + 1];
    }
    forall j, k | 0 <= j < k < |rest| ensures rest[j].End() < rest[k].start {
      assert rest[j] == rs[j + 1] && rest[k] == rs[k + 1];
    }
    forall p | e <= p < |bm| ensures IsDirty(bm, p) <==> Covered(rest, p) {
      CoveredCons(r, rest, p);
    }
  }

  /** Maximal runs from a clean page `i` on are maximal from the next page on. */
  lemma CleanStart(bm: Bitmap, i: nat, rs: seq<Run>)
    requires i < |bm| && !IsDirty(bm, i)
    requires IsMaximalRunsFrom(bm, i, rs)
    ensures IsMaximalRunsFrom(bm, i + 1, rs)
  {
    forall k | 0 <= k < |rs| ensures i + 1 <= rs[k].start {
      CoveredStart(bm, i, rs, k);
    }
  }

  /** Runs whose first is the run at a dirty page `i` and whose rest the scan finds after it are the scan's runs from `i`. */
  lemma RunsFromCons(bm: Bitmap, i: nat, rs: seq<Run>)
    requires i < |bm| && IsDirty(bm, i)
    requires rs != [] && rs[0].start == i && rs[0].End() == RunEnd(bm, i)
    requires rs[1..] == RunsFrom(bm, RunEnd(bm, i))
    ensures rs == RunsFrom(bm, i)
  {
    assert rs == [rs[0]] + rs[1..];
  }

  /** Any maximal runs from page `i` are the ones the scan finds. */
  lemma {:induction false} MaximalRunsFromUnique(bm: Bitmap, i: nat, rs: seq<Run>)
    requires i <= |bm|
    requires IsMaximalRunsFrom(bm, i, rs)
    ensures rs == RunsFrom(bm, i)
    decreases |bm| - i
  {
    if i == |bm| {
      if rs != [] {
        RunsInsideBound(bm, i, rs);
        assert false;
      }
    } else if !IsDirty(bm, i) {
      CleanStart(bm, i, rs);
      MaximalRunsFromUnique(bm, i + 1, rs);
    } else {
      FirstRunStart(bm, i, rs);
      FirstRunEnd(bm, i, rs);
      RestMaximal(bm, i, rs);
      MaximalRunsFromUnique(bm, RunEnd(bm, i), rs[1..]);
      RunsFromCons(bm, i, rs);
    }
  }

  /** Uniqueness: the maximal runs of a bitmap are exactly the ones the scan finds. */
  lemma MaximalRunsUnique(bm: Bitmap, rs: seq<Run>)
    requires IsMaximalRuns(bm, rs)
    ensures rs == Runs(bm)
  {
    MaximalRunsFromUnique(bm, 0, rs);
  }
}
