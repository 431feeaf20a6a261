/**
 * The data model of the HECA glue: the entities held in the process-wide
 * `Heca` record, the records handed to the DSM engine, and the effects the
 * glue has on the outside world.
 */
module Types {

  /** 2^64: uint64_t and the 64-bit unsigned long wrap modulo this. */
  const UINT64_MOD: nat := 0x1_0000_0000_0000_0000

  /** The two revisions of the glue: heca-all.c, and heca/qemu-heca.c with heca/commandline.c. */
  datatype Revision = HecaAll | QemuHeca

  /**
   * Build-time constants of the target: TARGET_PAGE_SIZE (a positive int
   * constant), MAX_SVM_IDS and libheca's MAX_ADDR_STR.
   */
  datatype Platform = Platform(pageSize: nat, maxSvmIds: nat, maxAddrStr: nat) {
    predicate Valid() {
      0 < pageSize < 0x8000_0000 && maxSvmIds > 0 && maxAddrStr > 0
    }
  }

  /** The values a C `int` holds. */
  type int32 = x: int | -0x8000_0000 <= x < 0x8000_0000

  /** A network endpoint: the IP address as the text given to inet_addr, and a port number. */
  datatype Endpoint = Endpoint(ip: string, port: nat)

  /** A sockaddr_in cleared with bzero. */
  const ZeroEndpoint := Endpoint("0.0.0.0", 0)

  /**
   * struct svm_data: one participating node (SVM) of a DSM domain. The
   * port is what the glue stores: a 16-bit network port, or in
   * heca/qemu-heca.c's migration nodes the configured `int` as it is.
   */
  datatype Node = Node(dsmId: nat, svmId: nat, ip: string, port: int)

  /**
   * struct unmap_data used as a memory region description. `owners` holds
   * the svm_ids slots written, in order; every later slot of the fixed
   * MAX_SVM_IDS array is zero. `autoUnmap` and `copyOnAccess` are the
   * UD_AUTO_UNMAP / UD_COPY_ON_ACCESS bits of `flags` in heca-all.c and the
   * `unmap` / `copy_on_access` booleans in heca/qemu-heca.c; `id` is
   * `mr_id` in the former and `id` in the latter.
   */
  datatype Region = Region(
    dsmId: nat,
    id: nat,
    addr: nat,
    size: nat,
    owners: seq<nat>,
    autoUnmap: bool,
    copyOnAccess: bool)

  /**
   * struct unmap_data used as an unmap request. The request built on the
   * stack never initialises its flag fields, except that heca/qemu-heca.c
   * sets `unmap`; `setsUnmap` records that.
   */
  datatype UnmapRequest = UnmapRequest(
    dsmId: nat,
    id: nat,
    addr: nat,
    size: nat,
    owners: seq<nat>,
    setsUnmap: bool)

  /** The configuration errors that make the parser exit(1). */
  datatype ConfigError =
    | MissingParam(name: string)
    | BadParamInt(name: string)
    | InvalidSvmId(id: nat)
    | WrongMemSize(size: nat)
    | TooManySvms

  /** What the parser builds for a master: the nodes and the regions. */
  datatype MasterConfig = MasterConfig(dsmId: nat, localSvmId: nat, svms: seq<Node>, regions: seq<Region>)

  /** What the parser builds for a client: its own id and the master's address. */
  datatype ClientConfig = ClientConfig(dsmId: nat, localSvmId: nat, masterAddr: Endpoint)

  /** The guest RAM block found by the RAM lookup: its host pointer and its size. */
  datatype RamSpan = RamSpan(base: nat, size: nat)

  /**
   * The reasons a bootstrap or an engine start ends the process: an exit
   * without guest RAM or on a negative descriptor, and the crash of
   * inet_addr when it is handed NULL.
   */
  datatype Abort = NoSystemRam | OpenFailed(fd: int) | NullAddress

  /** The glue's calls into the outside world, in the order they are made. */
  datatype Event =
    | ArmMigrationTimer(timeout: nat)
    | MasterOpen(svms: seq<Node>, regions: seq<Region>)
    | ClientOpen(ramBase: nat, ramSize: nat, localSvmId: nat, master: Endpoint)
    | UnmapRange(request: UnmapRequest)
    | TouchAllRam

  /** The migration phase flags, and whether a migration timer is armed and not yet fired. */
  datatype PhaseState = PhaseState(timerPending: bool, timerExpired: bool, iterativePhase: bool)

  /** struct Heca: the process-wide state of the glue. */
  datatype Heca = Heca(
    isEnabled: bool,
    isMaster: bool,
    dsmId: nat,
    rdmaFd: int,
    rdmaPort: int32,
    tcpSyncPort: int32,
    svmCount: nat,
    mrCount: nat,
    svms: seq<Node>,
    regions: seq<Region>,
    localSvmId: nat,
    phase: PhaseState,
    masterAddr: Endpoint)

  /** The zero-initialised global `heca`. */
  const ZeroHeca := Heca(false, false, 0, 0, 0, 0, 0, 0, [], [], 0,
                         PhaseState(false, false, false), ZeroEndpoint)

  /** Storing into a uint8_t field such as heca.dsm_id. */
  function Uint8(n: nat): (b: nat)
    ensures b < 256 && (n < 256 ==> b == n)
  {
    n % 256
  }

  /**
   * The port number a sockaddr_in keeps after htons, which takes a
   * uint16_t: the value modulo 2^16, negative `int`s included.
   */
  function Port16(n: int): (p: nat)
    ensures p < 0x1_0000 && (0 <= n < 0x1_0000 ==> p == n)
    ensures (n - p) % 0x1_0000 == 0
  {
    n % 0x1_0000
  }
}
