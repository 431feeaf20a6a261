/**
 * Starting the glue from the command line: heca_master_cmdline_init and
 * heca_client_cmdline_init fill the global record from the `-heca`
 * options, and heca_init then lays out the master's regions over guest RAM
 * and opens the engine as master or as client.
 */
module Session {
  import opened Wrappers
  import opened Types
  import opened CStrings
  import opened Options
  import opened CommandLine
  import opened Layout

  /**
   * The flags the master sets on every parsed region: heca-all.c ORs in
   * UD_AUTO_UNMAP and keeps the other bits; heca/qemu-heca.c sets `unmap`
   * and clears `copy_on_access`.
   */
  function MarkAutoUnmap(rev: Revision, g: Region): (m: Region)
    ensures m.autoUnmap
    ensures m == g.(autoUnmap := true, copyOnAccess := m.copyOnAccess)
    ensures m.copyOnAccess == (rev == HecaAll && g.copyOnAccess)
  {
    match rev
    case HecaAll => g.(autoUnmap := true)
    case QemuHeca => g.(autoUnmap := true, copyOnAccess := false)
  }

  function MarkAllAutoUnmap(rev: Revision, regions: seq<Region>): (ms: seq<Region>)
    ensures |ms| == |regions|
    ensures forall k | 0 <= k < |regions| :: ms[k] == MarkAutoUnmap(rev, regions[k])
  {
    seq(|regions|, k requires 0 <= k < |regions| => MarkAutoUnmap(rev, regions[k]))
  }

  /**
   * heca_master_cmdline_init: the glue is enabled as master, the parsed
   * nodes and regions are stored, and every region is marked to be
   * unmapped automatically. The parser counts each record onto
   * `svm_count` and `mr_count`, so the counts equal the list lengths when
   * the global starts zeroed. A configuration error exits.
   */
  function MasterCmdlineInit(rev: Revision, plat: Platform, h: Heca, opts: OptionList): (r: Result<Heca, ConfigError>)
    requires plat.Valid() && MasterInputSafe(opts, rev, plat)
    ensures r.Success? <==> ParseMasterCommandline(opts, rev, plat).Success?
    ensures r.Failure? ==> r.error == ParseMasterCommandline(opts, rev, plat).error
    ensures r.Success? ==>
      var cfg := ParseMasterCommandline(opts, rev, plat).value;
      && r.value.isEnabled && r.value.isMaster
      && r.value.dsmId == cfg.dsmId && r.value.localSvmId == 1
      && r.value.svms == cfg.svms && r.value.svmCount == h.svmCount + |cfg.svms|
      && |r.value.regions| == |cfg.regions| && r.value.mrCount == h.mrCount + |cfg.regions|
      && (h.svmCount == 0 && h.mrCount == 0 ==> r.value.svmCount == |r.value.svms| && r.value.mrCount == |r.value.regions|)
      && forall k | 0 <= k < |cfg.regions| :: r.value.regions[k] == MarkAutoUnmap(rev, cfg.regions[k])
  {
    match ParseMasterCommandline(opts, rev, plat)
    case Failure(e) => Failure(e)
    case Success(cfg) => Success(MasterState(rev, h, cfg))
  }

  /** The record heca_master_cmdline_init leaves behind once the options parse. */
  function MasterState(rev: Revision, h: Heca, cfg: MasterConfig): Heca {
    h.(isEnabled := true, isMaster := true, dsmId := cfg.dsmId, localSvmId := cfg.localSvmId,
       svmCount := h.svmCount + |cfg.svms|, svms := cfg.svms,
       mrCount := h.mrCount + |cfg.regions|, regions := MarkAllAutoUnmap(rev, cfg.regions))
  }

  /**
   * Both revisions leave every master region auto-unmapped and not copied
   * on access: the parser yields regions with both flags clear, so ORing in
   * the auto-unmap bit and clearing copy-on-access come to the same thing.
   */
  lemma MasterRegionsFlags(rev: Revision, plat: Platform, h: Heca, opts: OptionList)
    requires plat.Valid() && MasterInputSafe(opts, rev, plat)
    ensures var r := MasterCmdlineInit(rev, plat, h, opts);
      r.Success? ==> forall k | 0 <= k < |r.value.regions| ::
        r.value.regions[k].autoUnmap && !r.value.regions[k].copyOnAccess
  {
    MasterCommandlineValid(opts, rev, plat);
  }

  /** Both revisions leave the same master record behind for every command line. */
  lemma MasterRevisionsAgree(plat: Platform, h: Heca, opts: OptionList)
    requires plat.Valid() && MasterInputSafe(opts, HecaAll, plat)
    ensures MasterInputSafe(opts, QemuHeca, plat)
    ensures MasterCmdlineInit(HecaAll, plat, h, opts) == MasterCmdlineInit(QemuHeca, plat, h, opts)
  {
    MasterParseRevisionsAgree(opts, plat);
    MasterCommandlineValid(opts, HecaAll, plat);
    var p := ParseMasterCommandline(opts, HecaAll, plat);
    if p.Success? {
      var cfg := p.value;
      MarkAllAgree(cfg.regions);
      assert MasterCmdlineInit(HecaAll, plat, h, opts) == Success(MasterState(HecaAll, h, cfg));
      assert MasterCmdlineInit(QemuHeca, plat, h, opts) == Success(MasterState(QemuHeca, h, cfg));
    }
  }

  /** On regions with copy-on-access clear, the two revisions' markings coincide. */
  lemma MarkAllAgree(regions: seq<Region>)
    requires forall k | 0 <= k < |regions| :: !regions[k].copyOnAccess
    ensures MarkAllAutoUnmap(HecaAll, regions) == MarkAllAutoUnmap(QemuHeca, regions)
  {
    var a := MarkAllAutoUnmap(HecaAll, regions);
    var b := MarkAllAutoUnmap(QemuHeca, regions);
    forall k | 0 <= k < |regions| ensures a[k] == b[k] {
      assert a[k] == MarkAutoUnmap(HecaAll, regions[k]);
    }
  }

  /**
   * heca_client_cmdline_init: the glue is enabled as a client with the
   * domain, its own node id and the master's address from the options. A
   * configuration error exits.
   */
  function ClientCmdlineInit(h: Heca, opts: OptionList): (r: Result<Heca, ConfigError>)
    requires ClientInputSafe(opts)
    ensures r.Success? <==> ParseClientCommandline(opts).Success?
    ensures r.Success? ==>
      var cfg := ParseClientCommandline(opts).value;
      && r.value.isEnabled && !r.value.isMaster
      && r.value.dsmId == cfg.dsmId && r.value.localSvmId == cfg.localSvmId
      && r.value.masterAddr == cfg.masterAddr
      && r.value.svms == h.svms && r.value.regions == h.regions
  {
    match ParseClientCommandline(opts)
    case Failure(e) => Failure(e)
    case Success(cfg) =>
      Success(h.(isEnabled := true, isMaster := false, dsmId := cfg.dsmId,
                 localSvmId := cfg.localSvmId, masterAddr := cfg.masterAddr))
  }

  /**
   * heca_init: a master lays its regions out over guest RAM (ignoring
   * whether every region found room) and opens the engine with its nodes
   * and regions; a client opens the engine over guest RAM with its own id
   * and the master's address. A negative descriptor exits.
   */
  function HecaInit(h: Heca, ramPtr: nat, ramSize: nat, openFd: int): (r: (Result<Heca, Abort>, seq<Event>))
    ensures |r.1| == 1
    ensures r.0.Success? <==> openFd >= 0
    ensures r.0.Failure? ==> r.0.error == OpenFailed(openFd)
    ensures h.isMaster ==> r.1[0] == MasterOpen(h.svms, AssignMasterMem(h.regions, ramPtr, ramSize).1)
    ensures !h.isMaster ==> r.1[0] == ClientOpen(ramPtr, ramSize, h.localSvmId, h.masterAddr)
    ensures r.0.Success? ==> r.0.value.rdmaFd == openFd
  {
    var (h1, event) :=
      if h.isMaster then
        var laid := AssignMasterMem(h.regions, ramPtr, ramSize).1;
        (h.(regions := laid), MasterOpen(h.svms, laid))
      else
        (h, ClientOpen(ramPtr, ramSize, h.localSvmId, h.masterAddr));
    if openFd < 0 then (Failure(OpenFailed(openFd)), [event])
    else (Success(h1.(rdmaFd := openFd)), [event])
  }

  /**
   * Region `k` of a master's list after marking and layout: flagged for
   * automatic unmapping, not copied on access, with its size and owners as
   * parsed, and placed after the regions before it when those fit in RAM.
   */
  predicate StartedRegion(parsed: Region, laid: Region, offset: nat, ramPtr: nat, ramSize: nat) {
    && laid.autoUnmap && !laid.copyOnAccess
    && laid.size == parsed.size && laid.owners == parsed.owners
    && (offset <= ramSize ==> laid.addr == ramPtr + offset)
  }

  lemma MarkedLayout(rev: Revision, regions: seq<Region>, ramPtr: nat, ramSize: nat)
    requires forall k | 0 <= k < |regions| :: !regions[k].copyOnAccess
    ensures var marked := MarkAllAutoUnmap(rev, regions);
      var laid := AssignMasterMem(marked, ramPtr, ramSize).1;
      forall k | 0 <= k < |regions| :: StartedRegion(regions[k], laid[k], SizeSum(marked[..k]), ramPtr, ramSize)
  {
    var marked := MarkAllAutoUnmap(rev, regions);
    var laid := AssignMasterMem(marked, ramPtr, ramSize).1;
    forall k | 0 <= k < |regions|
      ensures StartedRegion(regions[k], laid[k], SizeSum(marked[..k]), ramPtr, ramSize)
    {
      assert laid[k] == LaidOut(marked, ramPtr, ramSize, k);
    }
  }

  /**
   * A master started from the command line opens the engine with the
   * parsed nodes and with its parsed regions laid out over guest RAM,
   * auto-unmapped in both revisions.
   */
  lemma MasterStartup(rev: Revision, plat: Platform, h: Heca, opts: OptionList, ramPtr: nat, ramSize: nat, openFd: int)
    requires plat.Valid() && MasterInputSafe(opts, rev, plat)
    requires MasterCmdlineInit(rev, plat, h, opts).Success?
    ensures var cfg := ParseMasterCommandline(opts, rev, plat).value;
      var g := MasterCmdlineInit(rev, plat, h, opts).value;
      var ev := HecaInit(g, ramPtr, ramSize, openFd).1[0];
      && ev.MasterOpen? && ev.svms == cfg.svms && |ev.regions| == |cfg.regions|
      && forall k | 0 <= k < |cfg.regions| ::
           StartedRegion(cfg.regions[k], ev.regions[k], SizeSum(g.regions[..k]), ramPtr, ramSize)
  {
    MasterCommandlineValid(opts, rev, plat);
    var cfg := ParseMasterCommandline(opts, rev, plat).value;
    var g := MasterCmdlineInit(rev, plat, h, opts).value;
    assert g.regions == MarkAllAutoUnmap(rev, cfg.regions);
    MarkedLayout(rev, cfg.regions, ramPtr, ramSize);
  }

  /** heca_init opens the engine even when some region found no room in guest RAM. */
  lemma InitIgnoresLayoutFailure(h: Heca, ramPtr: nat, ramSize: nat, openFd: int)
    requires h.isMaster && AssignMasterMem(h.regions, ramPtr, ramSize).0 == -1
    requires openFd >= 0
    ensures HecaInit(h, ramPtr, ramSize, openFd).0.Success?
    ensures exists k | 0 <= k < |h.regions| :: HecaInit(h, ramPtr, ramSize, openFd).0.value.regions[k] == h.regions[k]
  {
    var k :| 0 <= k < |h.regions| && SizeSum(h.regions[..k]) > ramSize;
    assert HecaInit(h, ramPtr, ramSize, openFd).0.value.regions[k] == h.regions[k];
  }

  /** A client started from the command line opens the engine as node `vmid` towards the master it was given. */
  lemma ClientStartup(h: Heca, opts: OptionList, ramPtr: nat, ramSize: nat, openFd: int)
    requires ClientInputSafe(opts) && ClientCmdlineInit(h, opts).Success?
    ensures var g := ClientCmdlineInit(h, opts).value;
      var f := Split(GetParam(opts, "master", PARAM_BUF).value, ':');
      HecaInit(g, ramPtr, ramSize, openFd).1 ==
        [ClientOpen(ramPtr, ramSize, GetParamInt(opts, "vmid").value, Endpoint(f[0], Port16(StrToULL(f[2]))))]
  {
    ClientCommandlineFields(opts);
  }
}
