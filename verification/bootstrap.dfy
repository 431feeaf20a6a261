/**
 * The migration bootstrap: heca_config, ip_from_uri, and the two entry
 * points that set the glue up for live migration, heca_migrate_dest_init
 * (the destination, which becomes the DSM master, node 1) and
 * heca_migrate_src_init (the source, which becomes client node 2).
 *
 * The configuration file, the RAM lookup and the engine's open calls are
 * inputs; the calls the glue makes are recorded as events.
 */
module Bootstrap {
  import opened Wrappers
  import opened CStrings
  import opened Types
  import opened Phase

  /** The ports used when the configuration file is missing or lacks a value. */
  const DEFAULT_RDMA_PORT: int32 := 4444
  const DEFAULT_TCP_SYNC_PORT: int32 := 4445

  /** Size of the buffer heca-all.c copies the URI into; its last byte stays NUL. */
  const URI_BUF: nat := 256

  /**
   * heca_config: `rdmaRead` and `tcpRead` are the values the configuration
   * file supplies through `%d` (None when the file is missing or the value
   * cannot be read); each missing one takes its default. Any `int` is
   * accepted, negative ones included.
   */
  function HecaConfig(h: Heca, rdmaRead: Option<int32>, tcpRead: Option<int32>): (g: Heca)
    ensures g.rdmaPort == (if rdmaRead.Some? then rdmaRead.value else DEFAULT_RDMA_PORT)
    ensures g.tcpSyncPort == (if tcpRead.Some? then tcpRead.value else DEFAULT_TCP_SYNC_PORT)
    ensures g == h.(rdmaPort := g.rdmaPort, tcpSyncPort := g.tcpSyncPort)
  {
    var rdma := match rdmaRead case Some(p) => p case None => DEFAULT_RDMA_PORT;
    var tcp := match tcpRead case Some(p) => p case None => DEFAULT_TCP_SYNC_PORT;
    h.(rdmaPort := rdma, tcpSyncPort := tcp)
  }

  // ---------------------------------------------------------------------
  // ip_from_uri
  // ---------------------------------------------------------------------

  /**
   * heca/qemu-heca.c copies the URI with strncpy into a MAX_ADDR_STR buffer
   * that is not terminated when the URI fills it, so it needs a shorter URI.
   */
  predicate UriFits(rev: Revision, plat: Platform, uri: string) {
    rev == QemuHeca ==> |uri| < plat.maxAddrStr
  }

  /** The copy of the URI that ip_from_uri tokenizes. */
  function UriCopy(rev: Revision, plat: Platform, uri: string): (buf: string)
    requires UriFits(rev, plat, uri)
    ensures buf <= uri
    ensures rev == QemuHeca || |uri| < URI_BUF ==> buf == uri
  {
    match rev
    case HecaAll => Truncate(uri, URI_BUF - 1)
    case QemuHeca => uri
  }

  /**
   * ip_from_uri: the second `:`-separated token of the URI, as two calls
   * of strtok; NULL when there is none.
   */
  function IpFromUri(rev: Revision, plat: Platform, uri: string): (ip: Option<string>)
    requires UriFits(rev, plat, uri)
    ensures var toks := Tokens(UriCopy(rev, plat, uri), ':');
      && (ip.Some? <==> |toks| >= 2)
      && (ip.Some? ==> ip.value == toks[1])
  {
    var buf := UriCopy(rev, plat, uri);
    StrTokTokens(buf, ':');
    match StrTok(buf, ':')
    case None => None
    case Some((_, rest)) =>
      StrTokTokens(rest, ':');
      match StrTok(rest, ':')
      case None => None
      case Some((ip, _)) => Some(ip)
  }

  /** A URI `scheme:ip:port` whose three parts are non-empty and free of `:` yields its ip. */
  lemma IpFromUriOfUri(rev: Revision, plat: Platform, scheme: string, ip: string, port: string)
    requires scheme != [] && ip != [] && port != []
    requires ':' !in scheme && ':' !in ip && ':' !in port
    requires var uri := scheme + ":" + ip + ":" + port;
      UriFits(rev, plat, uri) && |uri| < URI_BUF
    ensures IpFromUri(rev, plat, scheme + ":" + ip + ":" + port) == Some(ip)
  {
    var uri := scheme + ":" + ip + ":" + port;
    var fields := [scheme, ip, port];
    assert Join(fields[2..], ':') == port;
    assert Join(fields[1..], ':') == ip + ":" + port;
    assert Join(fields, ':') == uri;
    SplitJoin(fields, ':');
    NonEmptyKeepsAll(fields);
  }

  /** A URI with a single token, such as a bare address, yields NULL. */
  lemma IpFromUriOfOneToken(rev: Revision, plat: Platform, uri: string)
    requires uri != [] && ':' !in uri && UriFits(rev, plat, uri) && |uri| < URI_BUF
    ensures IpFromUri(rev, plat, uri) == None
  {
    SplitJoin([uri], ':');
    assert NonEmpty([uri]) == [uri];
  }

  // ---------------------------------------------------------------------
  // heca_migrate_dest_init
  // ---------------------------------------------------------------------

  /**
   * A node of the migration pair. heca-all.c keeps the address as given to
   * inet_addr and stores the port through htons; heca/qemu-heca.c copies
   * the address with strncpy into MAX_ADDR_STR bytes and stores the port
   * as it is. An address of MAX_ADDR_STR characters or more fills that
   * field with no terminating NUL; the model keeps the bytes copied.
   */
  function MigrationNode(rev: Revision, plat: Platform, svmId: nat, ip: string, port: int): (n: Node)
    ensures n.dsmId == 1 && n.svmId == svmId
    ensures rev == HecaAll ==> n.ip == ip && n.port == Port16(port)
    ensures rev == QemuHeca ==> n.ip == Truncate(ip, plat.maxAddrStr) && n.port == port
  {
    match rev
    case HecaAll => Node(1, svmId, ip, Port16(port))
    case QemuHeca => Node(1, svmId, Truncate(ip, plat.maxAddrStr), port)
  }

  /**
   * `%d` accepts a configured RDMA port of -1: heca-all.c hands it to
   * htons, which keeps 65535, while heca/qemu-heca.c stores -1 as it is.
   */
  lemma NegativeRdmaPort(plat: Platform, h: Heca, tcpRead: Option<int32>, ip: string)
    ensures var port := HecaConfig(h, Some(-1), tcpRead).rdmaPort;
      && port == -1
      && MigrationNode(HecaAll, plat, 1, ip, port).port == 0xFFFF
      && MigrationNode(QemuHeca, plat, 1, ip, port).port == -1
  {
  }

  /**
   * The one region of a migration: all of guest RAM, owned by the source
   * (node 2), copied on access and not unmapped automatically.
   */
  function MigrationRegion(span: RamSpan): (g: Region)
    ensures g.dsmId == 1 && g.id == 1 && g.owners == [2, 0]
    ensures g.addr == span.base && g.size == span.size
    ensures g.copyOnAccess && !g.autoUnmap
  {
    Region(1, 1, span.base, span.size, [2, 0], false, true)
  }

  /**
   * heca_migrate_dest_init: the destination becomes master node 1 of DSM 1
   * with two nodes (itself and the source, node 2, both on the RDMA port)
   * and the one region covering guest RAM, then opens the engine. Without
   * guest RAM it exits before opening; a negative descriptor exits after.
   */
  function MigrateDestInit(rev: Revision, plat: Platform, h: Heca, rdmaRead: Option<int32>, tcpRead: Option<int32>,
                           destIp: string, sourceIp: string, ram: Option<RamSpan>, openFd: int)
    : (r: (Result<Heca, Abort>, seq<Event>))
    ensures ram.None? ==> r == (Failure(NoSystemRam), [])
    ensures ram.Some? ==> (r.0.Success? <==> openFd >= 0)
    ensures ram.Some? ==>
      var port := HecaConfig(h, rdmaRead, tcpRead).rdmaPort;
      r.1 == [MasterOpen([MigrationNode(rev, plat, 1, destIp, port), MigrationNode(rev, plat, 2, sourceIp, port)],
                         [MigrationRegion(ram.value)])]
    ensures ram.Some? && openFd < 0 ==> r.0 == Failure(OpenFailed(openFd))
    ensures r.0.Success? ==>
      var g := r.0.value;
      && g.isEnabled && g.dsmId == 1 && g.localSvmId == 1 && g.rdmaFd == openFd
      && g.svmCount == |g.svms| == 2 && g.mrCount == |g.regions| == 1
      && g.svms[0].svmId == 1 && g.svms[1].svmId == 2
      && g.regions[0] == MigrationRegion(ram.value)
      && r.1 == [MasterOpen(g.svms, g.regions)]
  {
    var h1 := HecaConfig(h, rdmaRead, tcpRead);
    var svms := [MigrationNode(rev, plat, 1, destIp, h1.rdmaPort), MigrationNode(rev, plat, 2, sourceIp, h1.rdmaPort)];
    match ram
    case None => (Failure(NoSystemRam), [])
    case Some(span) =>
      var regions := [MigrationRegion(span)];
      var events := [MasterOpen(svms, regions)];
      if openFd < 0 then (Failure(OpenFailed(openFd)), events)
      else
        var g := h1.(isEnabled := true, dsmId := 1, localSvmId := 1, svmCount := 2, mrCount := 1,
                     svms := svms, regions := regions, rdmaFd := openFd);
        (Success(g), events)
  }

  // ---------------------------------------------------------------------
  // heca_migrate_src_init
  // ---------------------------------------------------------------------

  /**
   * heca_migrate_src_init: the source becomes client node 2 of DSM 1; the
   * master is the ip of the migration URI on the TCP sync port (through
   * htons). A URI without a second `:`-token makes ip_from_uri return NULL,
   * and inet_addr(NULL) crashes before anything else happens. Otherwise it
   * arms the pre-copy timer (the int `precopyTime` converted to uint64_t)
   * before it looks up guest RAM, then opens the engine as a client over
   * all of guest RAM. Without guest RAM it exits after arming the timer; a
   * negative descriptor exits after the open.
   */
  function MigrateSrcInit(rev: Revision, plat: Platform, h: Heca, rdmaRead: Option<int32>, tcpRead: Option<int32>,
                          uri: string, precopyTime: int, ram: Option<RamSpan>, openFd: int)
    : (r: (Result<Heca, Abort>, seq<Event>))
    requires UriFits(rev, plat, uri)
    ensures IpFromUri(rev, plat, uri).None? ==> r == (Failure(NullAddress), [])
    ensures IpFromUri(rev, plat, uri).Some? ==> |r.1| >= 1 && r.1[0] == ArmMigrationTimer(precopyTime % UINT64_MOD)
    ensures IpFromUri(rev, plat, uri).Some? && ram.None? ==>
      r == (Failure(NoSystemRam), [ArmMigrationTimer(precopyTime % UINT64_MOD)])
    ensures IpFromUri(rev, plat, uri).Some? && ram.Some? ==>
      var master := Endpoint(IpFromUri(rev, plat, uri).value, Port16(HecaConfig(h, rdmaRead, tcpRead).tcpSyncPort));
      && r.1 == [ArmMigrationTimer(precopyTime % UINT64_MOD), ClientOpen(ram.value.base, ram.value.size, 2, master)]
      && (r.0.Success? <==> openFd >= 0)
      && (openFd < 0 ==> r.0 == Failure(OpenFailed(openFd)))
    ensures r.0.Success? ==>
      var g := r.0.value;
      && g.isEnabled && g.dsmId == 1 && g.localSvmId == 2 && g.svmCount == 2 && g.rdmaFd == openFd
      && g.masterAddr == Endpoint(IpFromUri(rev, plat, uri).value, Port16(g.tcpSyncPort))
      && g.phase.timerPending
      && r.1[1] == ClientOpen(ram.value.base, ram.value.size, 2, g.masterAddr)
  {
    match IpFromUri(rev, plat, uri)
    case None => (Failure(NullAddress), [])
    case Some(ip) =>
      var h1 := HecaConfig(h, rdmaRead, tcpRead);
      var master := Endpoint(ip, Port16(h1.tcpSyncPort));
      var timer := ArmMigrationTimer(precopyTime % UINT64_MOD);
      match ram
      case None => (Failure(NoSystemRam), [timer])
      case Some(span) =>
        var events := [timer, ClientOpen(span.base, span.size, 2, master)];
        if openFd < 0 then (Failure(OpenFailed(openFd)), events)
        else
          var g := h1.(isEnabled := true, dsmId := 1, localSvmId := 2, svmCount := 2,
                       masterAddr := master, phase := StartMigTimer(h1.phase), rdmaFd := openFd);
          (Success(g), events)
  }

  /**
   * A negative pre-copy time does not wait: converted to uint64_t it is
   * 2^64 + precopyTime, and added to the clock modulo 2^64 it gives an
   * expiry precopyTime milliseconds in the past, so the timer is already
   * due.
   */
  lemma NegativePrecopyTimeFiresAtOnce(rev: Revision, plat: Platform, h: Heca, uri: string, precopyTime: int,
                                       ram: Option<RamSpan>, openFd: int, now: int)
    requires UriFits(rev, plat, uri) && IpFromUri(rev, plat, uri).Some?
    requires -0x8000_0000 <= precopyTime < 0
    requires 0 <= now < INT64_LIMIT
    ensures var ev := MigrateSrcInit(rev, plat, h, None, None, uri, precopyTime, ram, openFd).1[0];
      && ev == ArmMigrationTimer(UINT64_MOD + precopyTime)
      && TimerDeadline(now, ev.timeout) == now + precopyTime < now
  {
    ModInRange(UINT64_MOD + precopyTime, 1);
    DeadlineOfNegative(now, precopyTime);
  }

  /**
   * The two ends of a migration agree: the source's own id is the second
   * node the destination registers, the destination is the master node 1,
   * both use DSM 1, and the region registered is owned by the source and
   * spans the destination's guest RAM.
   */
  lemma MigrationEndsAgree(rev: Revision, plat: Platform, h: Heca, rdmaRead: Option<int32>, tcpRead: Option<int32>,
                           destIp: string, sourceIp: string, uri: string, precopyTime: int,
                           destRam: RamSpan, srcRam: RamSpan, destFd: int, srcFd: int)
    requires UriFits(rev, plat, uri) && IpFromUri(rev, plat, uri).Some?
    requires destFd >= 0 && srcFd >= 0
    ensures var dest := MigrateDestInit(rev, plat, h, rdmaRead, tcpRead, destIp, sourceIp, Some(destRam), destFd).0;
      var src := MigrateSrcInit(rev, plat, h, rdmaRead, tcpRead, uri, precopyTime, Some(srcRam), srcFd).0;
      && dest.Success? && src.Success?
      && dest.value.dsmId == src.value.dsmId == 1
      && dest.value.svms[1].svmId == src.value.localSvmId
      && dest.value.localSvmId == dest.value.svms[0].svmId == 1
      && src.value.localSvmId in dest.value.regions[0].owners
      && dest.value.regions[0].addr == destRam.base && dest.value.regions[0].size == destRam.size
  {
  }
}
