/**
 * The dirty-range reducer of the source side of a migration
 * (heca_unmap_dirty_bitmap and heca_unmap_memory): every maximal run of
 * dirty pages becomes one unmap request to the DSM engine, the first
 * failing request stops the scan, and when every request succeeds the
 * background read of all guest RAM is started.
 *
 * The engine's answers are an input: `ioctl[k]` is what the k-th unmap
 * ioctl returns, and calls past the end of `ioctl` return 0.
 */
module Reducer {
  import opened Wrappers
  import opened Types
  import opened DirtyBitmap

  /**
   * INT_MAX: the scan's `int` counter counts up to bitmap_size, so it
   * stays defined only for bitmaps of at most this many pages.
   */
  const INT_MAX: nat := 0x7FFF_FFFF

  /** The value the k-th unmap ioctl returns. */
  function IoctlResult(ioctl: seq<int>, k: nat): int {
    if k < |ioctl| then ioctl[k] else 0
  }

  /** The first `k` unmap ioctls succeed. */
  predicate Succeeded(ioctl: seq<int>, k: nat) {
    forall j | 0 <= j < k :: IoctlResult(ioctl, j) == 0
  }

  /** The host address of guest RAM as an unsigned long: a missing RAM block reads as NULL. */
  function HostRam(ram: Option<RamSpan>): nat {
    match ram
    case None => 0
    case Some(span) => span.base
  }

  /**
   * The request heca_unmap_memory builds: region 0 of DSM 1, owned by SVM
   * 2, the rest of the owner list zero; only heca/qemu-heca.c sets the
   * `unmap` flag.
   */
  function UnmapRequestFor(rev: Revision, addr: nat, size: nat): (req: UnmapRequest)
    ensures req.addr == addr && req.size == size
    ensures req.dsmId == 1 && req.id == 0 && req.owners == [2, 0]
    ensures req.setsUnmap <==> rev == QemuHeca
  {
    UnmapRequest(1, 0, addr, size, [2, 0], rev == QemuHeca)
  }

  /** heca_unmap_memory: any non-zero ioctl result becomes -1, zero is returned as is. */
  function UnmapMemory(ioctlResult: int): (ret: int)
    ensures ret == 0 || ret == -1
    ensures ret == 0 <==> ioctlResult == 0
  {
    if ioctlResult != 0 then -1 else ioctlResult
  }

  /** The byte offset of page `i` from the start of guest RAM, computed without overflow. */
  function PageOffset(i: nat, pageSize: nat): nat {
    i * pageSize
  }

  /** The unmap request for one run of dirty pages. */
  function RunRequest(rev: Revision, plat: Platform, hostRam: nat, r: Run): (req: UnmapRequest)
    ensures req == UnmapRequestFor(rev, req.addr, req.size)
    ensures req.size == r.len * plat.pageSize
  {
    UnmapRequestFor(rev, (hostRam + PageOffset(r.start, plat.pageSize)) % UINT64_MOD, r.len * plat.pageSize)
  }

  /** One unmap request per run, in order. */
  function Requests(rev: Revision, plat: Platform, hostRam: nat, rs: seq<Run>): (reqs: seq<UnmapRequest>)
    ensures |reqs| == |rs|
  {
    seq(|rs|, k requires 0 <= k < |rs| => RunRequest(rev, plat, hostRam, rs[k]))
  }

  /** The unmap events of the requests, in order. */
  function Unmaps(reqs: seq<UnmapRequest>): (es: seq<Event>)
    ensures |es| == |reqs|
  {
    seq(|reqs|, k requires 0 <= k < |reqs| => UnmapRange(reqs[k]))
  }

  /**
   * Submitting the requests from the k-th on: each is sent in turn; the
   * first that fails ends the submission with -1; when all succeed the
   * read of all RAM is started and 0 is returned.
   */
  function SubmitFrom(reqs: seq<UnmapRequest>, ioctl: seq<int>, k: nat): (int, seq<Event>)
    requires k <= |reqs|
    decreases |reqs| - k
  {
    if k == |reqs| then (0, [TouchAllRam])
    else if UnmapMemory(IoctlResult(ioctl, k)) < 0 then (-1, [UnmapRange(reqs[k])])
    else
      var rest := SubmitFrom(reqs, ioctl, k + 1);
      (rest.0, [UnmapRange(reqs[k])] + rest.1)
  }

  /** What heca_unmap_dirty_bitmap does: its return value and its effects. */
  function Reduce(rev: Revision, plat: Platform, ram: Option<RamSpan>, bm: Bitmap, ioctl: seq<int>): (int, seq<Event>) {
    SubmitFrom(Requests(rev, plat, HostRam(ram), Runs(bm)), ioctl, 0)
  }

  lemma UnmapsSnoc(reqs: seq<UnmapRequest>, k: nat)
    requires k < |reqs|
    ensures Unmaps(reqs[..k + 1]) == Unmaps(reqs[..k]) + [UnmapRange(reqs[k])]
  {
  }

  /** When the first `k` requests succeed, the submission is their events followed by the submission from `k` on. */
  lemma {:induction false} SubmitFromPrefix(reqs: seq<UnmapRequest>, ioctl: seq<int>, k: nat)
    requires k <= |reqs| && Succeeded(ioctl, k)
    ensures SubmitFrom(reqs, ioctl, 0).0 == SubmitFrom(reqs, ioctl, k).0
    ensures SubmitFrom(reqs, ioctl, 0).1 == Unmaps(reqs[..k]) + SubmitFrom(reqs, ioctl, k).1
  {
    if k == 0 {
      assert Unmaps(reqs[..0]) == [];
    } else {
      assert IoctlResult(ioctl, k - 1) == 0;
      SubmitFromPrefix(reqs, ioctl, k - 1);
      UnmapsSnoc(reqs, k - 1);
    }
  }

  /** When every request succeeds, all are sent, the read of all RAM starts and 0 is returned. */
  lemma SubmitSucceeds(reqs: seq<UnmapRequest>, ioctl: seq<int>)
    requires Succeeded(ioctl, |reqs|)
    ensures SubmitFrom(reqs, ioctl, 0) == (0, Unmaps(reqs) + [TouchAllRam])
  {
    SubmitFromPrefix(reqs, ioctl, |reqs|);
    assert reqs[..|reqs|] == reqs;
  }

  /** When request `k` is the first to fail, the requests up to it are sent, nothing else happens and -1 is returned. */
  lemma SubmitFailsAt(reqs: seq<UnmapRequest>, ioctl: seq<int>, k: nat)
    requires k < |reqs| && Succeeded(ioctl, k) && IoctlResult(ioctl, k) != 0
    ensures SubmitFrom(reqs, ioctl, 0) == (-1, Unmaps(reqs[..k + 1]))
  {
    SubmitFromPrefix(reqs, ioctl, k);
    UnmapsSnoc(reqs, k);
  }

  /** The submission from `k` on returns 0 exactly when every remaining request succeeds, and -1 otherwise. */
  lemma {:induction false} SubmitFromResult(reqs: seq<UnmapRequest>, ioctl: seq<int>, k: nat)
    requires k <= |reqs|
    ensures SubmitFrom(reqs, ioctl, k).0 == 0 <==> forall j | k <= j < |reqs| :: IoctlResult(ioctl, j) == 0
    ensures SubmitFrom(reqs, ioctl, k).0 == 0 || SubmitFrom(reqs, ioctl, k).0 == -1
    decreases |reqs| - k
  {
    if k < |reqs| {
      SubmitFromResult(reqs, ioctl, k + 1);
    }
  }

  /** When not all of the first `n` ioctls succeed, one of them is the first to fail. */
  lemma {:induction false} FirstFailure(ioctl: seq<int>, n: nat) returns (k: nat)
    requires !Succeeded(ioctl, n)
    ensures k < n && Succeeded(ioctl, k) && IoctlResult(ioctl, k) != 0
  {
    if Succeeded(ioctl, n - 1) {
      k := n - 1;
    } else {
      k := FirstFailure(ioctl, n - 1);
    }
  }

  /** The reducer returns 0 exactly when every unmap request succeeds; otherwise it returns -1. */
  lemma ReduceResult(rev: Revision, plat: Platform, ram: Option<RamSpan>, bm: Bitmap, ioctl: seq<int>)
    ensures Reduce(rev, plat, ram, bm, ioctl).0 == 0 <==> Succeeded(ioctl, |Runs(bm)|)
    ensures Reduce(rev, plat, ram, bm, ioctl).0 == 0 || Reduce(rev, plat, ram, bm, ioctl).0 == -1
  {
    SubmitFromResult(Requests(rev, plat, HostRam(ram), Runs(bm)), ioctl, 0);
  }

  /** The read of all RAM is started, as the last effect, exactly when the reducer returns 0. */
  lemma ReduceTouchesRamIffSuccess(rev: Revision, plat: Platform, ram: Option<RamSpan>, bm: Bitmap, ioctl: seq<int>)
    ensures var (ret, events) := Reduce(rev, plat, ram, bm, ioctl);
      (TouchAllRam in events <==> ret == 0) &&
      (ret == 0 ==> events[|events| - 1] == TouchAllRam)
  {
    var reqs := Requests(rev, plat, HostRam(ram), Runs(bm));
    ReduceResult(rev, plat, ram, bm, ioctl);
    if Succeeded(ioctl, |reqs|) {
      SubmitSucceeds(reqs, ioctl);
    } else {
      var k := FirstFailure(ioctl, |reqs|);
      SubmitFailsAt(reqs, ioctl, k);
      assert forall e | e in Unmaps(reqs[..k + 1]) :: e.UnmapRange?;
    }
  }

  /** A bitmap with no dirty page unmaps nothing, starts the read of all RAM and returns 0. */
  lemma ReduceAllClean(rev: Revision, plat: Platform, ram: Option<RamSpan>, bm: Bitmap, ioctl: seq<int>)
    requires forall p | 0 <= p < |bm| :: !IsDirty(bm, p)
    ensures Reduce(rev, plat, ram, bm, ioctl) == (0, [TouchAllRam])
  {
    RunsMaximal(bm);
    if Runs(bm) != [] {
      CoveredStart(bm, 0, Runs(bm), 0);
    }
  }

  /** A non-empty bitmap of dirty pages only is unmapped with one request for all of RAM it describes. */
  lemma ReduceAllDirty(rev: Revision, plat: Platform, ram: Option<RamSpan>, bm: Bitmap, ioctl: seq<int>)
    requires |bm| > 0 && forall p | 0 <= p < |bm| :: IsDirty(bm, p)
    ensures var req := UnmapRequestFor(rev, HostRam(ram) % UINT64_MOD, |bm| * plat.pageSize);
      Reduce(rev, plat, ram, bm, ioctl) ==
        if IoctlResult(ioctl, 0) == 0 then (0, [UnmapRange(req), TouchAllRam]) else (-1, [UnmapRange(req)])
  {
    RunEndUnique(bm, 0, |bm|);
    assert Runs(bm) == [Run(0, |bm|)] + RunsFrom(bm, |bm|);
    var reqs := Requests(rev, plat, HostRam(ram), Runs(bm));
    assert reqs == [UnmapRequestFor(rev, HostRam(ram) % UINT64_MOD, |bm| * plat.pageSize)];
    assert SubmitFrom(reqs, ioctl, 1) == (0, [TouchAllRam]);
    if IoctlResult(ioctl, 0) == 0 {
      assert SubmitFrom(reqs, ioctl, 0) == (0, [UnmapRange(reqs[0])] + [TouchAllRam]);
      assert [UnmapRange(reqs[0])] + [TouchAllRam] == [UnmapRange(reqs[0]), TouchAllRam];
    } else {
      assert SubmitFrom(reqs, ioctl, 0) == (-1, [UnmapRange(reqs[0])]);
    }
  }

  // ---------------------------------------------------------------------
  // Every unmapped range lies inside guest RAM
  // ---------------------------------------------------------------------

  lemma RunBytesInside(r: Run, n: nat, pageSize: nat)
    requires r.End() <= n
    ensures PageOffset(r.start, pageSize) + r.len * pageSize <= n * pageSize
  {
    assert r.start * pageSize + r.len * pageSize == r.End() * pageSize;
    assert r.End() * pageSize <= n * pageSize by {
      assert n * pageSize == r.End() * pageSize + (n - r.End()) * pageSize;
    }
  }

  /** The request for a non-empty run of a bitmap that fits in guest RAM lies inside guest RAM. */
  lemma RunRequestInside(rev: Revision, plat: Platform, span: RamSpan, r: Run, n: nat)
    requires plat.Valid() && r.len > 0 && r.End() <= n
    requires n * plat.pageSize <= span.size && span.base + span.size <= UINT64_MOD
    ensures var req := RunRequest(rev, plat, span.base, r);
      span.base <= req.addr && req.addr + req.size <= span.base + span.size
  {
    RunBytesInside(r, n, plat.pageSize);
    assert r.len * plat.pageSize >= 1 by {
      MulSucc(r.len - 1, plat.pageSize);
    }
  }

  /**
   * When the bitmap describes no more pages than guest RAM holds and the
   * RAM does not wrap the address space, every request the reducer sends
   * lies inside guest RAM.
   */
  lemma ReduceUnmapsInsideRam(rev: Revision, plat: Platform, span: RamSpan, bm: Bitmap, ioctl: seq<int>)
    requires plat.Valid()
    requires |bm| * plat.pageSize <= span.size && span.base + span.size <= UINT64_MOD
    ensures forall e | e in Reduce(rev, plat, Some(span), bm, ioctl).1 && e.UnmapRange? ::
      span.base <= e.request.addr && e.request.addr + e.request.size <= span.base + span.size
  {
    var rs := Runs(bm);
    var reqs := Requests(rev, plat, span.base, rs);
    RunsMaximal(bm);
    forall k | 0 <= k < |reqs|
      ensures span.base <= reqs[k].addr && reqs[k].addr + reqs[k].size <= span.base + span.size
    {
      assert rs[k].len > 0 && rs[k].End() <= |bm|;
      RunRequestInside(rev, plat, span, rs[k], |bm|);
    }
    SubmitEventsFrom(reqs, ioctl, 0);
  }

  /** Every unmap event of a submission is for one of its requests. */
  lemma {:induction false} SubmitEventsFrom(reqs: seq<UnmapRequest>, ioctl: seq<int>, k: nat)
    requires k <= |reqs|
    ensures forall e | e in SubmitFrom(reqs, ioctl, k).1 && e.UnmapRange? :: e.request in reqs
    decreases |reqs| - k
  {
    if k < |reqs| {
      SubmitEventsFrom(reqs, ioctl, k + 1);
    }
  }

  // ---------------------------------------------------------------------
  // The page offset as the source computes it
  // ---------------------------------------------------------------------

  /**
   * `i * TARGET_PAGE_SIZE` as written: a product of two ints, which wraps
   * at 32 bits (in practice; the C standard leaves it undefined), then
   * sign-extended into the unsigned long `unmap_offset`.
   */
  function PageOffsetAsWritten(i: nat, pageSize: nat): (off: nat)
    ensures off < UINT64_MOD
    ensures i * pageSize < 0x8000_0000 ==> off == PageOffset(i, pageSize)
  {
    var w := (i * pageSize) % 0x1_0000_0000;
    if w < 0x8000_0000 then w else UINT64_MOD - 0x1_0000_0000 + w
  }

  /** The unmap request for a run, with the page offset computed as written. */
  function RunRequestAsWritten(rev: Revision, plat: Platform, hostRam: nat, r: Run): (req: UnmapRequest)
    ensures req.size == r.len * plat.pageSize
    ensures r.start * plat.pageSize < 0x8000_0000 ==> req == RunRequest(rev, plat, hostRam, r)
  {
    UnmapRequestFor(rev, (hostRam + PageOffsetAsWritten(r.start, plat.pageSize)) % UINT64_MOD, r.len * plat.pageSize)
  }

  /**
   * With 4 KiB pages and 2 GiB + 4 KiB of guest RAM at host address 2^40,
   * a dirty last page (page 524288) is unmapped 2 GiB below the start of
   * guest RAM instead of 2 GiB above it.
   */
  lemma RunRequestAsWrittenLeavesRam(rev: Revision)
    ensures var plat := Platform(4096, 2, 16);
      var base := 0x100_0000_0000;
      var span := RamSpan(base, 524289 * 4096);
      var r := Run(524288, 1);
      && RunRequestAsWritten(rev, plat, base, r).addr == base - 0x8000_0000
      && RunRequestAsWritten(rev, plat, base, r).addr < span.base
      && RunRequest(rev, plat, base, r).addr == base + 0x8000_0000
      && span.base <= RunRequest(rev, plat, base, r).addr
      && RunRequest(rev, plat, base, r).addr + 4096 <= span.base + span.size
  {
  }

  // ---------------------------------------------------------------------
  // The scan
  // ---------------------------------------------------------------------

  /** After a clean page, the runs from it on are the runs from the next page on. */
  lemma RunsFromClean(bm: Bitmap, i: nat)
    requires i < |bm| && !IsDirty(bm, i)
    ensures RunsFrom(bm, i) == RunsFrom(bm, i + 1) && RunEnd(bm, i) == i
  {
  }

  /** The runs from a dirty page on start with the run beginning there. */
  lemma RunsFromDirty(bm: Bitmap, s: nat)
    requires s < |bm| && IsDirty(bm, s)
    ensures RunsFrom(bm, s) == [Run(s, RunEnd(bm, s) - s)] + RunsFrom(bm, RunEnd(bm, s))
  {
  }

  /** Sending the next request either fails the submission with it or extends the successful prefix by it. */
  lemma SubmitNext(reqs: seq<UnmapRequest>, ioctl: seq<int>, k: nat, events: seq<Event>)
    requires k < |reqs| && Succeeded(ioctl, k) && events == Unmaps(reqs[..k])
    ensures IoctlResult(ioctl, k) != 0 ==> SubmitFrom(reqs, ioctl, 0) == (-1, events + [UnmapRange(reqs[k])])
    ensures IoctlResult(ioctl, k) == 0 ==> Succeeded(ioctl, k + 1) && events + [UnmapRange(reqs[k])] == Unmaps(reqs[..k + 1])
  {
    UnmapsSnoc(reqs, k);
    if IoctlResult(ioctl, k) != 0 {
      SubmitFailsAt(reqs, ioctl, k);
    }
  }

  lemma MulSucc(a: nat, b: nat)
    ensures (a + 1) * b == a * b + b
  {
  }

  /** A run open since dirty page `s` that ends at page `e` is the next run, and its request is the next request. */
  lemma CloseRun(rev: Revision, plat: Platform, hostRam: nat, bm: Bitmap, calls: nat, s: nat, e: nat)
    requires s < |bm| && IsDirty(bm, s) && RunEnd(bm, s) == e
    requires calls <= |Runs(bm)| && Runs(bm)[calls..] == RunsFrom(bm, s)
    ensures calls < |Runs(bm)| && Runs(bm)[calls + 1..] == RunsFrom(bm, e)
    ensures Requests(rev, plat, hostRam, Runs(bm))[calls] ==
      UnmapRequestFor(rev, (hostRam + s * plat.pageSize) % UINT64_MOD, (e - s) * plat.pageSize)
  {
    var rs := Runs(bm);
    RunsFromDirty(bm, s);
    assert rs[calls..][1..] == rs[calls + 1..];
    assert rs[calls] == rs[calls..][0] == Run(s, e - s);
  }

  /**
   * heca_unmap_dirty_bitmap: scans the bitmap once, keeping the byte
   * offset of the open run (-1 when none is open) and its size; a clean
   * page after a dirty one, or the end of the bitmap, sends the open run.
   */
  method UnmapDirtyBitmap(rev: Revision, plat: Platform, ram: Option<RamSpan>, bm: Bitmap, ioctl: seq<int>)
    returns (ret: int, events: seq<Event>)
    requires plat.Valid() && |bm| <= INT_MAX
    ensures (ret, events) == Reduce(rev, plat, ram, bm, ioctl)
  {
    var hostRam := HostRam(ram);
    var pageSize := plat.pageSize;
    ghost var rs := Runs(bm);
    ghost var reqs := Requests(rev, plat, hostRam, rs);
    var offset: int := -1;
    var size: nat := 0;
    var calls: nat := 0;
    ghost var s: nat := 0;
    events := [];
    var i: nat := 0;
    while i < |bm|
      invariant i <= |bm| && calls <= |rs|
      invariant Succeeded(ioctl, calls) && events == Unmaps(reqs[..calls])
      invariant size == 0 ==> offset == -1 && rs[calls..] == RunsFrom(bm, i)
      invariant size > 0 ==>
        && s < i && IsDirty(bm, s) && offset == s * pageSize && size == (i - s) * pageSize
        && RunEnd(bm, s) == RunEnd(bm, i) && rs[calls..] == RunsFrom(bm, s)
    {
      if IsDirty(bm, i) {
        if offset == -1 {
          offset := i * pageSize;
          s := i;
        }
        MulSucc(i - s, pageSize);
        size := size + pageSize;
      } else if size > 0 {
        RunsFromClean(bm, i);
        CloseRun(rev, plat, hostRam, bm, calls, s, i);
        var req := UnmapRequestFor(rev, (hostRam + offset) % UINT64_MOD, size);
        SubmitNext(reqs, ioctl, calls, events);
        ret := UnmapMemory(IoctlResult(ioctl, calls));
        events := events + [UnmapRange(req)];
        if ret < 0 {
          return;
        }
        calls := calls + 1;
        offset := -1;
        size := 0;
      } else {
        RunsFromClean(bm, i);
      }
      i := i + 1;
    }
    if size > 0 {
      CloseRun(rev, plat, hostRam, bm, calls, s, i);
      var req := UnmapRequestFor(rev, (hostRam + offset) % UINT64_MOD, size);
      SubmitNext(reqs, ioctl, calls, events);
      ret := UnmapMemory(IoctlResult(ioctl, calls));
      events := events + [UnmapRange(req)];
      if ret < 0 {
        return;
      }
      calls := calls + 1;
    }
    assert calls == |reqs| by {
      assert |rs[calls..]| == 0;
    }
    assert reqs[..calls] == reqs;
    SubmitSucceeds(reqs, ioctl);
    events := events + [TouchAllRam];
    ret := 0;
  }
}
