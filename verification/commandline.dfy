/**
 * The `-heca` option parser (parse_heca_master_commandline and
 * parse_heca_client_commandline, present in heca/commandline.c and again
 * in heca-all.c). Records are walked with get_opt_name exactly as the C
 * loops do; each parse is then related to the plain split of the option
 * value into `#`-records and `:`-fields.
 */
module CommandLine {
  import opened Wrappers
  import opened CStrings
  import opened Types
  import opened Options

  /** Room in the record and field buffers h_buf and l_buf of the master parser. */
  function LineRoom(rev: Revision): nat {
    if rev == HecaAll then 499 else 199
  }

  /** Room in l_buf of the client parser, 200 bytes in both revisions. */
  const CLIENT_ROOM: nat := 199

  /** Size of the client parser's `ip` buffer, filled with strcpy. */
  const IP_BUF: nat := 100

  /** The `#`-terminated records of a list: every field of the split except the text after the last `#`. */
  function Records(v: string): seq<string> {
    var f := Split(v, '#');
    f[..|f| - 1]
  }

  /** The list is empty or its last record is closed by `#`. */
  predicate Terminated(v: string) {
    v == [] || v[|v| - 1] == '#'
  }

  /** The first `#`-record of a terminated list, and the list after it. */
  lemma RecordsStep(v: string, room: nat)
    requires v != [] && Terminated(v) && |v| <= room
    ensures var (h, rest) := GetOptName(v, '#', room);
      && rest != [] && |rest[1..]| < |v| && Terminated(rest[1..])
      && Records(v) == [h] + Records(rest[1..])
  {
    var (h, rest) := GetOptName(v, '#', room);
    var f := Split(v, '#');
    SplitFirst(v, '#');
    assert FieldEnd(v, '#') < |v|;
    assert rest != [];
    assert h == f[0];
    assert rest[1..] == v[FieldEnd(v, '#') + 1..];
    var g := Split(rest[1..], '#');
    assert g == f[1..];
    assert Records(v) == [f[0]] + g[..|g| - 1];
  }

  // ---------------------------------------------------------------------
  // Node records: id:ip:rdma_port:tcp_port
  // ---------------------------------------------------------------------

  /** The node id of a record passes the check `(svm_id & 0xFFFF) == svm_id`. */
  predicate NodeIdFits(h: string) {
    StrToULL(Split(h, ':')[0]) <= 0xFFFF
  }

  /**
   * Every `q++` of the node parser that is later dereferenced steps over a
   * `:` rather than past the end: when the id passes its check, one
   * follows the id, one the ip and one the RDMA port. A failing id exits
   * before anything after it is read.
   */
  predicate NodeRecordSafe(h: string) {
    NodeIdFits(h) ==> |Split(h, ':')| >= 4
  }

  /** The node a record's fields describe; the TCP port field is read and dropped. */
  function NodeOf(fields: seq<string>, dsm: nat): Node
    requires |fields| >= 3
  {
    Node(dsm, StrToULL(fields[0]), fields[1], Port16(StrToULL(fields[2])))
  }

  /** One pass of the node loop body over the record in h_buf. */
  function ParseNodeRecord(h: string, dsm: nat, room: nat): (r: Result<Node, ConfigError>)
    requires |h| <= room
    requires NodeRecordSafe(h)
    ensures r.Success? <==> NodeIdFits(h)
    ensures r.Success? ==> r.value == NodeOf(Split(h, ':'), dsm)
    ensures r.Failure? ==> r.error == InvalidSvmId(StrToULL(Split(h, ':')[0]))
  {
    var (idField, q1) := GetOptName(h, ':', room);
    var id := StrToULL(idField);
    if id > 0xFFFF then
      GetOptNameWhole(h, ':', room);
      Failure(InvalidSvmId(id))
    else
      var (ipField, q2) := GetOptName(q1[1..], ':', room);
      var (rdmaField, q3) := GetOptName(q2[1..], ':', room);
      var (tcpField, _) := GetOptName(q3[1..], ':', room);
      Success(Node(dsm, id, ipField, Port16(StrToULL(rdmaField))))
  }

  /** The node loop never steps past the end of the `vminfo` value before reading it. */
  predicate NodeListSafe(p: string, room: nat)
    decreases |p|
  {
    p == [] ||
    var (h, rest) := GetOptName(p, '#', room);
    && NodeRecordSafe(h)
    && (NodeIdFits(h) ==> rest != [] && NodeListSafe(rest[1..], room))
  }

  /** The node loop: one node per `#`-record, in order, until the value ends. */
  function ParseNodeList(p: string, dsm: nat, room: nat): (r: Result<seq<Node>, ConfigError>)
    requires NodeListSafe(p, room)
    decreases |p|
  {
    if p == [] then Success([])
    else
      var (h, rest) := GetOptName(p, '#', room);
      match ParseNodeRecord(h, dsm, room)
      case Failure(e) => Failure(e)
      case Success(node) =>
        match ParseNodeList(rest[1..], dsm, room)
        case Failure(e) => Failure(e)
        case Success(nodes) => Success([node] + nodes)
  }

  /** One turn of the node loop: the first record's node, then the nodes of the rest. */
  lemma NodeListStep(v: string, dsm: nat, room: nat)
    requires v != [] && NodeListSafe(v, room)
    ensures var (h, rest) := GetOptName(v, '#', room);
      var r := ParseNodeList(v, dsm, room);
      && (r.Success? <==> NodeIdFits(h) && ParseNodeList(rest[1..], dsm, room).Success?)
      && (r.Success? ==> r.value == [NodeOf(Split(h, ':'), dsm)] + ParseNodeList(rest[1..], dsm, room).value)
  {
  }

  /** Every record has at least `n` `:`-fields. */
  predicate AllHaveFields(recs: seq<string>, n: nat) {
    forall k | 0 <= k < |recs| :: |Split(recs[k], ':')| >= n
  }

  lemma AllHaveFieldsCons(h: string, t: seq<string>, n: nat)
    ensures AllHaveFields([h] + t, n) <==> |Split(h, ':')| >= n && AllHaveFields(t, n)
  {
    var recs := [h] + t;
    assert recs[0] == h;
    assert forall k | 0 <= k < |t| :: t[k] == recs[k + 1];
  }

  /** Every record's node id passes the 16-bit check. */
  predicate AllIdsFit(recs: seq<string>) {
    forall k | 0 <= k < |recs| :: NodeIdFits(recs[k])
  }

  lemma AllIdsFitCons(h: string, t: seq<string>)
    ensures AllIdsFit([h] + t) <==> NodeIdFits(h) && AllIdsFit(t)
  {
    var recs := [h] + t;
    assert recs[0] == h;
    assert forall k | 0 <= k < |t| :: t[k] == recs[k + 1];
  }

  /** `nodes` holds, in order, the node of each record. */
  predicate NodesMatch(nodes: seq<Node>, recs: seq<string>, dsm: nat) {
    && |nodes| == |recs|
    && forall k | 0 <= k < |recs| :: |Split(recs[k], ':')| >= 3 && nodes[k] == NodeOf(Split(recs[k], ':'), dsm)
  }

  lemma NodesMatchCons(n: Node, ns: seq<Node>, h: string, t: seq<string>, dsm: nat)
    requires |Split(h, ':')| >= 3 && n == NodeOf(Split(h, ':'), dsm)
    requires NodesMatch(ns, t, dsm)
    ensures NodesMatch([n] + ns, [h] + t, dsm)
  {
    var nodes, recs := [n] + ns, [h] + t;
    forall k | 0 <= k < |recs| ensures |Split(recs[k], ':')| >= 3 && nodes[k] == NodeOf(Split(recs[k], ':'), dsm) {
      if k > 0 {
        assert nodes[k] == ns[k - 1] && recs[k] == t[k - 1];
      }
    }
  }

  /**
   * On a terminated list of records with four fields each, the loop is
   * safe, succeeds exactly when every node id fits in 16 bits (no other
   * check: zero and repeated ids pass), and yields one node per record in
   * input order.
   */
  lemma {:induction false} NodeListRecords(v: string, dsm: nat, room: nat)
    requires |v| <= room && Terminated(v)
    requires AllHaveFields(Records(v), 4)
    ensures NodeListSafe(v, room)
    ensures ParseNodeList(v, dsm, room).Success? <==> AllIdsFit(Records(v))
    ensures ParseNodeList(v, dsm, room).Success? ==> NodesMatch(ParseNodeList(v, dsm, room).value, Records(v), dsm)
    decreases |v|
  {
    if v == [] {
      assert Split(v, '#') == [[]];
    } else {
      RecordsStep(v, room);
      var (h, rest) := GetOptName(v, '#', room);
      var tail := rest[1..];
      var trecs := Records(tail);
      AllHaveFieldsCons(h, trecs, 4);
      AllIdsFitCons(h, trecs);
      NodeListRecords(tail, dsm, room);
      NodeListStep(v, dsm, room);
      var r := ParseNodeList(v, dsm, room);
      if r.Success? {
        NodesMatchCons(NodeOf(Split(h, ':'), dsm), ParseNodeList(tail, dsm, room).value, h, trecs, dsm);
      }
    }
  }

  /** Every node carries the domain id, a node id that passed the 16-bit check, and a 16-bit port. */
  predicate NodesValid(nodes: seq<Node>, dsm: nat) {
    forall k | 0 <= k < |nodes| :: nodes[k].dsmId == dsm && nodes[k].svmId <= 0xFFFF && 0 <= nodes[k].port < 0x1_0000
  }

  lemma NodesValidCons(n: Node, ns: seq<Node>, dsm: nat)
    ensures NodesValid([n] + ns, dsm) <==>
      n.dsmId == dsm && n.svmId <= 0xFFFF && 0 <= n.port < 0x1_0000 && NodesValid(ns, dsm)
  {
    var all := [n] + ns;
    assert all[0] == n;
    assert forall k | 0 <= k < |ns| :: ns[k] == all[k + 1];
  }

  /** Whatever the input, every node the loop yields passed the id check and carries the domain id. */
  lemma {:induction false} ParseNodeListValid(p: string, dsm: nat, room: nat)
    requires NodeListSafe(p, room)
    ensures ParseNodeList(p, dsm, room).Success? ==> NodesValid(ParseNodeList(p, dsm, room).value, dsm)
    decreases |p|
  {
    if p != [] {
      var (h, rest) := GetOptName(p, '#', room);
      NodeListStep(p, dsm, room);
      if ParseNodeList(p, dsm, room).Success? {
        ParseNodeListValid(rest[1..], dsm, room);
        NodesValidCons(NodeOf(Split(h, ':'), dsm), ParseNodeList(rest[1..], dsm, room).value, dsm);
      }
    }
  }

  // ---------------------------------------------------------------------
  // Region records: id:size:owner:owner:...
  // ---------------------------------------------------------------------

  /** A region size the parser accepts: non-zero and a multiple of TARGET_PAGE_SIZE. */
  predicate RegionSizeOk(size: nat, plat: Platform)
    requires plat.Valid()
  {
    size > 0 && size % plat.pageSize == 0
  }

  /** The owner fields: all of them, except that a trailing `:` closes the list instead of adding an empty owner. */
  function DropTrailingEmpty(fields: seq<string>): seq<string> {
    if |fields| > 0 && fields[|fields| - 1] == [] then fields[..|fields| - 1] else fields
  }

  lemma DropTrailingEmptyCons(x: string, g: seq<string>)
    requires |g| >= 1
    ensures DropTrailingEmpty([x] + g) == [x] + DropTrailingEmpty(g)
  {
    var f := [x] + g;
    assert f[|f| - 1] == g[|g| - 1];
    if g[|g| - 1] == [] {
      assert f[..|f| - 1] == [x] + g[..|g| - 1];
    }
  }

  /** The ids the fields spell, as strtoull reads them, in order. */
  function OwnerIds(fields: seq<string>): (ids: seq<nat>)
    ensures |ids| == |fields|
    decreases |fields|
  {
    if fields == [] then [] else [StrToULL(fields[0])] + OwnerIds(fields[1..])
  }

  lemma {:induction false} OwnerIdsAt(fields: seq<string>, k: nat)
    requires k < |fields|
    ensures OwnerIds(fields)[k] == StrToULL(fields[k])
    decreases k
  {
    if k > 0 {
      OwnerIdsAt(fields[1..], k - 1);
    }
  }

  /** The owner fields of what is left of a record: a trailing `:` closes the list. */
  function OwnerFields(q: string): seq<string> {
    DropTrailingEmpty(Split(q, ':'))
  }

  /**
   * What the owner loop yields from slot `i` on for the owner fields
   * `fields`: success exactly when they fit in the remaining MAX_SVM_IDS - i
   * slots, and then their ids in order.
   */
  predicate OwnersRead(r: Result<seq<nat>, ConfigError>, fields: seq<string>, i: nat, maxIds: nat) {
    && (r.Success? <==> i + |fields| <= maxIds)
    && (r.Success? ==> r.value == OwnerIds(fields))
  }

  /** What is left of the record after the owner loop reads one field: the text after its `:`, if any. */
  function OwnersNext(q: string, room: nat): (next: string)
    requires q != []
    ensures |next| < |q|
  {
    var (_, q1) := GetOptName(q, ':', room);
    if q1 != [] then q1[1..] else q1
  }

  /** Reading one owner field takes the first of the owner fields and leaves the others. */
  lemma OwnerFieldsStep(q: string, room: nat)
    requires q != [] && |q| <= room
    ensures OwnerFields(q) == [GetOptName(q, ':', room).0] + OwnerFields(OwnersNext(q, room))
  {
    var (field, q1) := GetOptName(q, ':', room);
    var f := Split(q, ':');
    if q1 == [] {
      assert Split(q1, ':') == [[]];
      assert f == [field];
    } else {
      assert f == [f[0]] + f[1..];
      DropTrailingEmptyCons(field, f[1..]);
    }
  }

  /** The owner loop's result for a first field and the fields after it. */
  lemma OwnersCons(field: string, fs: seq<string>, fields: seq<string>,
                   r: Result<seq<nat>, ConfigError>, whole: Result<seq<nat>, ConfigError>, i: nat, maxIds: nat)
    requires i < maxIds && fields == [field] + fs
    requires whole == if r.Failure? then Failure(r.error) else Success([StrToULL(field)] + r.value)
    requires OwnersRead(r, fs, i + 1, maxIds)
    ensures OwnersRead(whole, fields, i, maxIds)
  {
    assert fields[1..] == fs;
  }

  /**
   * The owner loop: from slot `i` on, read `:`-separated ids until the
   * record ends, exiting when a read would need slot MAX_SVM_IDS. It reads
   * the owner fields of what is left of the record.
   */
  function ParseOwners(q: string, i: nat, maxIds: nat, room: nat): (r: Result<seq<nat>, ConfigError>)
    requires i <= maxIds && |q| <= room
    ensures OwnersRead(r, OwnerFields(q), i, maxIds)
    ensures r.Failure? ==> r.error == TooManySvms
    decreases |q|
  {
    if q == [] then
      assert Split(q, ':') == [[]];
      Success([])
    else if i == maxIds then
      OwnerFieldsStep(q, room);
      Failure(TooManySvms)
    else
      var field := GetOptName(q, ':', room).0;
      var next := OwnersNext(q, room);
      var rest := ParseOwners(next, i + 1, maxIds, room);
      var r := match rest
        case Failure(e) => Failure(e)
        case Success(ids) => Success([StrToULL(field)] + ids);
      OwnerFieldsStep(q, room);
      OwnersCons(field, OwnerFields(next), OwnerFields(q), rest, r, i, maxIds);
      r
  }

  /**
   * Every `q++` of the region parser that is later dereferenced steps over
   * a `:`: one follows the id, and when the size passes its check, one
   * follows the size.
   */
  predicate RegionRecordSafe(h: string, plat: Platform)
    requires plat.Valid()
  {
    var f := Split(h, ':');
    |f| >= 2 && (RegionSizeOk(StrToULL(f[1]), plat) ==> |f| >= 3)
  }

  /** The record passes the size check and lists at most MAX_SVM_IDS owners. */
  predicate RegionRecordOk(h: string, plat: Platform)
    requires plat.Valid()
  {
    var f := Split(h, ':');
    |f| >= 2 && RegionSizeOk(StrToULL(f[1]), plat) && |DropTrailingEmpty(f[2..])| <= plat.maxSvmIds
  }

  /** The region a record's fields describe, before an address is assigned. */
  function RegionOf(fields: seq<string>, dsm: nat): Region
    requires |fields| >= 2
  {
    Region(dsm, StrToULL(fields[0]), 0, StrToULL(fields[1]),
           OwnerIds(DropTrailingEmpty(fields[2..])), false, false)
  }

  /** One pass of the region loop body over the record in h_buf. */
  function ParseRegionRecord(h: string, dsm: nat, plat: Platform, room: nat): (r: Result<Region, ConfigError>)
    requires plat.Valid() && |h| <= room
    requires RegionRecordSafe(h, plat)
    ensures r.Success? <==> RegionRecordOk(h, plat)
    ensures r.Success? ==> r.value == RegionOf(Split(h, ':'), dsm)
    ensures r.Failure? ==>
      var size := StrToULL(Split(h, ':')[1]);
      r.error == if RegionSizeOk(size, plat) then TooManySvms else WrongMemSize(size)
  {
    var (idField, q1) := GetOptName(h, ':', room);
    GetOptNameWhole(q1[1..], ':', room);
    var (sizeField, q2) := GetOptName(q1[1..], ':', room);
    var size := StrToULL(sizeField);
    if size == 0 || size % plat.pageSize != 0 then Failure(WrongMemSize(size))
    else
      var f := Split(h, ':');
      assert Split(q2[1..], ':') == f[2..];
      match ParseOwners(q2[1..], 0, plat.maxSvmIds, room)
      case Failure(e) => Failure(e)
      case Success(owners) => Success(Region(dsm, StrToULL(idField), 0, size, owners, false, false))
  }

  /** The region loop never steps past the end of the `mr` value before reading it. */
  predicate RegionListSafe(p: string, plat: Platform, room: nat)
    requires plat.Valid()
    decreases |p|
  {
    p == [] ||
    var (h, rest) := GetOptName(p, '#', room);
    && RegionRecordSafe(h, plat)
    && (RegionRecordOk(h, plat) ==> rest != [] && RegionListSafe(rest[1..], plat, room))
  }

  /** The region loop: one region per `#`-record, in order, until the value ends. */
  function ParseRegionList(p: string, dsm: nat, plat: Platform, room: nat): Result<seq<Region>, ConfigError>
    requires plat.Valid()
    requires RegionListSafe(p, plat, room)
    decreases |p|
  {
    if p == [] then Success([])
    else
      var (h, rest) := GetOptName(p, '#', room);
      match ParseRegionRecord(h, dsm, plat, room)
      case Failure(e) => Failure(e)
      case Success(region) =>
        match ParseRegionList(rest[1..], dsm, plat, room)
        case Failure(e) => Failure(e)
        case Success(regions) => Success([region] + regions)
  }

  /** One turn of the region loop: the first record's region, then the regions of the rest. */
  lemma RegionListStep(v: string, dsm: nat, plat: Platform, room: nat)
    requires plat.Valid()
    requires v != [] && RegionListSafe(v, plat, room)
    ensures var (h, rest) := GetOptName(v, '#', room);
      var r := ParseRegionList(v, dsm, plat, room);
      && (r.Success? <==> RegionRecordOk(h, plat) && ParseRegionList(rest[1..], dsm, plat, room).Success?)
      && (r.Success? ==> r.value == [RegionOf(Split(h, ':'), dsm)] + ParseRegionList(rest[1..], dsm, plat, room).value)
  {
  }

  /** Every record passes the size and owner-count checks. */
  predicate AllRegionsOk(recs: seq<string>, plat: Platform)
    requires plat.Valid()
  {
    forall k | 0 <= k < |recs| :: RegionRecordOk(recs[k], plat)
  }

  lemma AllRegionsOkCons(h: string, t: seq<string>, plat: Platform)
    requires plat.Valid()
    ensures AllRegionsOk([h] + t, plat) <==> RegionRecordOk(h, plat) && AllRegionsOk(t, plat)
  {
    var recs := [h] + t;
    assert recs[0] == h;
    assert forall k | 0 <= k < |t| :: t[k] == recs[k + 1];
  }

  /** `regions` holds, in order, the region of each record. */
  predicate RegionsMatch(regions: seq<Region>, recs: seq<string>, dsm: nat) {
    && |regions| == |recs|
    && forall k | 0 <= k < |recs| :: |Split(recs[k], ':')| >= 2 && regions[k] == RegionOf(Split(recs[k], ':'), dsm)
  }

  lemma RegionsMatchCons(g: Region, gs: seq<Region>, h: string, t: seq<string>, dsm: nat)
    requires |Split(h, ':')| >= 2 && g == RegionOf(Split(h, ':'), dsm)
    requires RegionsMatch(gs, t, dsm)
    ensures RegionsMatch([g] + gs, [h] + t, dsm)
  {
    var regions, recs := [g] + gs, [h] + t;
    forall k | 0 <= k < |recs| ensures |Split(recs[k], ':')| >= 2 && regions[k] == RegionOf(Split(recs[k], ':'), dsm) {
      if k > 0 {
        assert regions[k] == gs[k - 1] && recs[k] == t[k - 1];
      }
    }
  }

  /**
   * On a terminated list of records with at least three fields each, the
   * loop is safe, succeeds exactly when every record passes the size and
   * owner-count checks (region ids are not compared), and yields one
   * region per record in input order.
   */
  lemma {:induction false} RegionListRecords(v: string, dsm: nat, plat: Platform, room: nat)
    requires plat.Valid()
    requires |v| <= room && Terminated(v)
    requires AllHaveFields(Records(v), 3)
    ensures RegionListSafe(v, plat, room)
    ensures ParseRegionList(v, dsm, plat, room).Success? <==> AllRegionsOk(Records(v), plat)
    ensures ParseRegionList(v, dsm, plat, room).Success? ==>
      RegionsMatch(ParseRegionList(v, dsm, plat, room).value, Records(v), dsm)
    decreases |v|
  {
    if v == [] {
      assert Split(v, '#') == [[]];
    } else {
      RecordsStep(v, room);
      var (h, rest) := GetOptName(v, '#', room);
      var tail := rest[1..];
      var trecs := Records(tail);
      AllHaveFieldsCons(h, trecs, 3);
      AllRegionsOkCons(h, trecs, plat);
      RegionListRecords(tail, dsm, plat, room);
      RegionListStep(v, dsm, plat, room);
      var r := ParseRegionList(v, dsm, plat, room);
      if r.Success? {
        RegionsMatchCons(RegionOf(Split(h, ':'), dsm), ParseRegionList(tail, dsm, plat, room).value, h, trecs, dsm);
      }
    }
  }

  /**
   * Every region carries the domain id and no address yet, has a size the
   * check accepted and at most MAX_SVM_IDS owners, and has both flags clear.
   */
  predicate RegionsValid(regions: seq<Region>, dsm: nat, plat: Platform)
    requires plat.Valid()
  {
    forall k | 0 <= k < |regions| ::
      && regions[k].dsmId == dsm && regions[k].addr == 0
      && RegionSizeOk(regions[k].size, plat) && |regions[k].owners| <= plat.maxSvmIds
      && !regions[k].autoUnmap && !regions[k].copyOnAccess
  }

  lemma RegionsValidCons(g: Region, gs: seq<Region>, dsm: nat, plat: Platform)
    requires plat.Valid()
    requires g.dsmId == dsm && g.addr == 0 && RegionSizeOk(g.size, plat) && |g.owners| <= plat.maxSvmIds
    requires !g.autoUnmap && !g.copyOnAccess
    requires RegionsValid(gs, dsm, plat)
    ensures RegionsValid([g] + gs, dsm, plat)
  {
    var all := [g] + gs;
    assert all[0] == g;
    assert forall k | 0 <= k < |gs| :: gs[k] == all[k + 1];
  }

  /** Whatever the input, every region the loop yields passed the size and owner-count checks. */
  lemma {:induction false} ParseRegionListValid(p: string, dsm: nat, plat: Platform, room: nat)
    requires plat.Valid()
    requires RegionListSafe(p, plat, room)
    ensures ParseRegionList(p, dsm, plat, room).Success? ==>
      RegionsValid(ParseRegionList(p, dsm, plat, room).value, dsm, plat)
    decreases |p|
  {
    if p != [] {
      var (h, rest) := GetOptName(p, '#', room);
      RegionListStep(p, dsm, plat, room);
      if ParseRegionList(p, dsm, plat, room).Success? {
        ParseRegionListValid(rest[1..], dsm, plat, room);
        RegionsValidCons(RegionOf(Split(h, ':'), dsm), ParseRegionList(rest[1..], dsm, plat, room).value, dsm, plat);
      }
    }
  }

  // ---------------------------------------------------------------------
  // parse_heca_master_commandline and parse_heca_client_commandline
  // ---------------------------------------------------------------------
  // The two revisions' line buffers
  // ---------------------------------------------------------------------

  /** A node list no longer than either room parses the same with both. */
  lemma {:induction false} NodeListRoomFree(p: string, dsm: nat, a: nat, b: nat)
    requires |p| <= a && |p| <= b
    ensures NodeListSafe(p, a) == NodeListSafe(p, b)
    ensures NodeListSafe(p, a) ==> ParseNodeList(p, dsm, a) == ParseNodeList(p, dsm, b)
    decreases |p|
  {
    if p != [] {
      GetOptNameRoomFree(p, '#', a, b);
      var (h, rest) := GetOptName(p, '#', a);
      if rest != [] {
        NodeListRoomFree(rest[1..], dsm, a, b);
      }
    }
  }

  /** A region list no longer than either room parses the same with both. */
  lemma {:induction false} RegionListRoomFree(p: string, dsm: nat, plat: Platform, a: nat, b: nat)
    requires plat.Valid() && |p| <= a && |p| <= b
    ensures RegionListSafe(p, plat, a) == RegionListSafe(p, plat, b)
    ensures RegionListSafe(p, plat, a) ==> ParseRegionList(p, dsm, plat, a) == ParseRegionList(p, dsm, plat, b)
    decreases |p|
  {
    if p != [] {
      GetOptNameRoomFree(p, '#', a, b);
      var (h, rest) := GetOptName(p, '#', a);
      if rest != [] {
        RegionListRoomFree(rest[1..], dsm, plat, a, b);
      }
    }
  }

  /**
   * heca-all.c gives the master parser 500-byte line buffers and
   * heca/commandline.c 200-byte ones, but a value fetched through a
   * 128-byte option buffer fits in either. So one revision's parse of a
   * master command line is safe exactly when the other's is.
   */
  lemma MasterSafeRevisionsAgree(opts: OptionList, plat: Platform)
    requires plat.Valid()
    ensures MasterInputSafe(opts, HecaAll, plat) == MasterInputSafe(opts, QemuHeca, plat)
  {
    var d := GetParamInt(opts, "dsmid");
    var v := GetParam(opts, "vminfo", PARAM_BUF);
    var m := GetParam(opts, "mr", PARAM_BUF);
    if d.Success? && v.Success? {
      NodeListRoomFree(v.value, Uint8(d.value), 499, 199);
      if m.Success? {
        RegionListRoomFree(m.value, Uint8(d.value), plat, 499, 199);
      }
    }
  }

  /** For the same reason, both revisions parse every master command line alike. */
  lemma MasterParseRevisionsAgree(opts: OptionList, plat: Platform)
    requires plat.Valid() && MasterInputSafe(opts, HecaAll, plat)
    ensures MasterInputSafe(opts, QemuHeca, plat)
    ensures ParseMasterCommandline(opts, HecaAll, plat) == ParseMasterCommandline(opts, QemuHeca, plat)
  {
    MasterSafeRevisionsAgree(opts, plat);
    var d := GetParamInt(opts, "dsmid");
    var v := GetParam(opts, "vminfo", PARAM_BUF);
    var m := GetParam(opts, "mr", PARAM_BUF);
    if d.Success? && v.Success? {
      NodeListRoomFree(v.value, Uint8(d.value), 499, 199);
      if m.Success? {
        RegionListRoomFree(m.value, Uint8(d.value), plat, 499, 199);
      }
    }
  }

  // ---------------------------------------------------------------------

  /**
   * The master parse never reads past the end of a value: whenever it gets
   * as far as the node or the region loop, that loop is safe.
   */
  predicate MasterInputSafe(opts: OptionList, rev: Revision, plat: Platform)
    requires plat.Valid()
  {
    var room := LineRoom(rev);
    match GetParamInt(opts, "dsmid")
    case Failure(_) => true
    case Success(d) =>
      match GetParam(opts, "vminfo", PARAM_BUF)
      case Failure(_) => true
      case Success(vminfo) =>
        && NodeListSafe(vminfo, room)
        && (ParseNodeList(vminfo, Uint8(d), room).Success? ==>
              match GetParam(opts, "mr", PARAM_BUF)
              case Failure(_) => true
              case Success(mr) => RegionListSafe(mr, plat, room))
  }

  /**
   * parse_heca_master_commandline: the domain id (stored into the uint8_t
   * heca.dsm_id), local node id 1, the nodes of `vminfo` and the regions of
   * `mr`, in that order of parsing; any failed check exits.
   */
  function ParseMasterCommandline(opts: OptionList, rev: Revision, plat: Platform): (r: Result<MasterConfig, ConfigError>)
    requires plat.Valid()
    requires MasterInputSafe(opts, rev, plat)
    ensures r.Success? ==> r.value.localSvmId == 1 && r.value.dsmId < 256
  {
    var room := LineRoom(rev);
    match GetParamInt(opts, "dsmid")
    case Failure(e) => Failure(e)
    case Success(d) =>
      var dsm := Uint8(d);
      match GetParam(opts, "vminfo", PARAM_BUF)
      case Failure(e) => Failure(e)
      case Success(vminfo) =>
        match ParseNodeList(vminfo, dsm, room)
        case Failure(e) => Failure(e)
        case Success(svms) =>
          match GetParam(opts, "mr", PARAM_BUF)
          case Failure(e) => Failure(e)
          case Success(mr) =>
            match ParseRegionList(mr, dsm, plat, room)
            case Failure(e) => Failure(e)
            case Success(regions) => Success(MasterConfig(dsm, 1, svms, regions))
  }

  /** Whatever the input, a parsed master configuration holds only nodes and regions that passed their checks. */
  lemma MasterCommandlineValid(opts: OptionList, rev: Revision, plat: Platform)
    requires plat.Valid()
    requires MasterInputSafe(opts, rev, plat)
    ensures var r := ParseMasterCommandline(opts, rev, plat);
      r.Success? ==>
        && NodesValid(r.value.svms, r.value.dsmId)
        && RegionsValid(r.value.regions, r.value.dsmId, plat)
  {
    var r := ParseMasterCommandline(opts, rev, plat);
    if r.Success? {
      var room := LineRoom(rev);
      var d := GetParamInt(opts, "dsmid").value;
      var vminfo := GetParam(opts, "vminfo", PARAM_BUF).value;
      var mr := GetParam(opts, "mr", PARAM_BUF).value;
      ParseNodeListValid(vminfo, Uint8(d), room);
      ParseRegionListValid(mr, Uint8(d), plat, room);
    }
  }

  /**
   * With `dsmid` valid and `vminfo` and `mr` terminated lists whose records
   * have four and three fields, the parse is safe; it succeeds exactly when
   * every node id fits in 16 bits and every region passes its checks, and
   * then there is one node per `vminfo` record and one region per `mr`
   * record, in order, all carrying dsmid mod 256.
   */
  lemma MasterCommandlineRecords(opts: OptionList, rev: Revision, plat: Platform, vminfo: string, mr: string)
    requires plat.Valid()
    requires GetParamInt(opts, "dsmid").Success?
    requires GetParam(opts, "vminfo", PARAM_BUF) == Success(vminfo) && Terminated(vminfo)
    requires GetParam(opts, "mr", PARAM_BUF) == Success(mr) && Terminated(mr)
    requires AllHaveFields(Records(vminfo), 4) && AllHaveFields(Records(mr), 3)
    ensures MasterInputSafe(opts, rev, plat)
    ensures var r := ParseMasterCommandline(opts, rev, plat);
      var dsm := Uint8(GetParamInt(opts, "dsmid").value);
      && (r.Success? <==> AllIdsFit(Records(vminfo)) && AllRegionsOk(Records(mr), plat))
      && (r.Success? ==>
            && r.value.dsmId == dsm && r.value.localSvmId == 1
            && NodesMatch(r.value.svms, Records(vminfo), dsm)
            && RegionsMatch(r.value.regions, Records(mr), dsm))
  {
    var room := LineRoom(rev);
    var dsm := Uint8(GetParamInt(opts, "dsmid").value);
    NodeListRecords(vminfo, dsm, room);
    RegionListRecords(mr, dsm, plat, room);
  }

  /** The client parse reaches the end of the `master` value safely: it has three fields and the ip fits `ip[100]`. */
  predicate MasterAddrSafe(m: string) {
    var f := Split(m, ':');
    |f| >= 3 && |f[0]| < IP_BUF
  }

  /** The client parse never reads past the end of `master` nor overflows `ip` whenever it gets that far. */
  predicate ClientInputSafe(opts: OptionList) {
    match GetParamInt(opts, "dsmid")
    case Failure(_) => true
    case Success(_) =>
      match GetParamInt(opts, "vmid")
      case Failure(_) => true
      case Success(_) =>
        match GetParam(opts, "master", PARAM_BUF)
        case Failure(_) => true
        case Success(m) => MasterAddrSafe(m)
  }

  /**
   * parse_heca_client_commandline: the domain id, the client's own node id
   * `vmid`, and the master's address from `master` = ip:rdma_port:tcp_port.
   */
  function ParseClientCommandline(opts: OptionList): Result<ClientConfig, ConfigError>
    requires ClientInputSafe(opts)
  {
    match GetParamInt(opts, "dsmid")
    case Failure(e) => Failure(e)
    case Success(d) =>
      match GetParamInt(opts, "vmid")
      case Failure(e) => Failure(e)
      case Success(vmid) =>
        match GetParam(opts, "master", PARAM_BUF)
        case Failure(e) => Failure(e)
        case Success(m) =>
          var (ip, q1) := GetOptName(m, ':', CLIENT_ROOM);
          var (rdmaField, q2) := GetOptName(q1[1..], ':', CLIENT_ROOM);
          var (tcpField, _) := GetOptName(q2[1..], ':', CLIENT_ROOM);
          Success(ClientConfig(Uint8(d), vmid, Endpoint(ip, Port16(StrToULL(tcpField)))))
  }

  /**
   * The client configuration: dsmid mod 256, vmid as given, and the master
   * at the first field of `master` with the port of the THIRD field (the
   * TCP port); the second field, the RDMA port, is read and dropped. A
   * missing or invalid dsmid or vmid, or a missing master, exits.
   */
  lemma ClientCommandlineFields(opts: OptionList)
    requires ClientInputSafe(opts)
    ensures var r := ParseClientCommandline(opts);
      && (r.Success? <==>
            GetParamInt(opts, "dsmid").Success? && GetParamInt(opts, "vmid").Success? &&
            GetParam(opts, "master", PARAM_BUF).Success?)
      && (r.Success? ==>
            var f := Split(GetParam(opts, "master", PARAM_BUF).value, ':');
            && r.value.dsmId == Uint8(GetParamInt(opts, "dsmid").value)
            && r.value.localSvmId == GetParamInt(opts, "vmid").value
            && r.value.masterAddr == Endpoint(f[0], Port16(StrToULL(f[2]))))
  {
    var r := ParseClientCommandline(opts);
    if r.Success? {
      var m := GetParam(opts, "master", PARAM_BUF).value;
      var f := Split(m, ':');
      assert |m| < PARAM_BUF;
      var (ip, q1) := GetOptName(m, ':', CLIENT_ROOM);
      var (rdmaField, q2) := GetOptName(q1[1..], ':', CLIENT_ROOM);
      assert Split(q1[1..], ':') == f[1..];
      assert Split(q2[1..], ':') == f[2..];
    }
  }
}
