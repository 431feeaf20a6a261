# HECA glue for QEMU, modelled in Dafny

This project models the glue between QEMU and the HECA distributed shared
memory engine, in both of its revisions: `heca-all.c` and the split
`heca/qemu-heca.c` + `heca/commandline.c`. One `Revision` parameter
(`HecaAll` or `QemuHeca`) selects the places where the two differ. Those
places are buffer sizes, whether ports go through `htons`, how URIs and
addresses are copied, and which region flags are set.

The model covers:

- **Option parsing** (`cstrings.dfy`, `options.dfy`, `commandline.dfy`):
  - QEMU's `get_opt_name`, `get_param_value` and `strtoull`, as the glue
    uses them;
  - the wrappers `get_param` and `get_param_int`;
  - the master parser of `dsmid`, `vminfo` (`#`-terminated
    `id:ip:rdma_port:tcp_port` records) and `mr` (`#`-terminated
    `id:size:owner:…` records);
  - the client parser of `dsmid`, `vmid` and `master` (`ip:rdma:tcp`).
- **Dirty-range reducer** (`dirtybitmap.dfy`, `reducer.dfy`):
  `heca_unmap_dirty_bitmap` and `heca_unmap_memory`. The bitmap is
  reduced to its maximal runs of dirty pages. Each run is sent as one unmap
  request. The first failing request ends the scan with -1; otherwise the
  read of all RAM starts and 0 is returned.
- **Region layout** (`layout.dfy`): `heca_assign_master_mem`.
- **Migration bootstrap** (`bootstrap.dfy`): `heca_config`,
  `ip_from_uri`, `heca_migrate_dest_init` and `heca_migrate_src_init`.
- **Phase flags** (`phase.dfy`): the migration timer and its callback, and
  the pre-copy / post-copy flag.
- **Start-up** (`session.dfy`): `heca_master_cmdline_init`,
  `heca_client_cmdline_init` and `heca_init`.

How C is represented:

- **Strings.** A C string is the `seq<char>` of its characters before the
  NUL. A pointer into a string is the suffix it points at.
- **Foreign calls as inputs.**
  - The results of the engine's calls (`heca_master_open`,
    `heca_client_open`, the unmap `ioctl`s) are inputs to the model.
  - The lookup of guest RAM (`heca_get_system_ram_ptr` and its size) is
    an input too.
  - The configuration file's contents are given as the `int` values its
    `%d` conversions yield, negative ones included.
- **Effects.** What the glue asks of the outside world is returned as a
  sequence of `Event`s:
  - arming the migration timer;
  - opening the engine as master or as client;
  - one unmap request;
  - starting the read of all RAM.
- **Exits.** A configuration error that calls `exit(1)` is a `Failure`.
- **Integers.** Integer widths are written out where they matter:
  - the domain id is stored in a `uint8_t`;
  - `get_param_int` stores into a `uint32_t`;
  - the configured ports are `int`s, and `htons` keeps their low 16 bits,
    so -1 becomes 65535;
  - `unsigned long` addresses wrap at 2^64;
  - `int` to `uint64_t` wraps at 2^64;
  - the timer deadline wraps into a signed 64-bit value.

Where the code and its documentation disagree, the model follows the code:

- `is_iterative_phase` starts zeroed, and nothing in heca-all.c or
  heca/qemu-heca.c sets it. So no sequence of the modelled operations
  reports the pre-copy phase (`Phase.NeverPreCopy`). The record is an
  `extern` global, and other QEMU files could write it; they are not part
  of this model.
- A descriptor of 0 from the engine counts as success, because only a
  negative one is checked.
- `heca_init` ignores the result of `heca_assign_master_mem`.

## Model

| member | source | states |
|---|---|---|
| CStrings.Truncate | heca/qemu-heca.c:20-21 | copying into a buffer keeps a prefix of the string: the whole string when it fits, and exactly as many characters as the room otherwise |
| CStrings.GetOptName | heca-all.c:100-103 | the copy is the first field (truncated to the buffer), and the rest starts at the delimiter and holds the other fields, or is empty when there was only one field |
| CStrings.JoinSplit | heca-all.c:100-102 | splitting at a delimiter loses nothing: joining the fields gives the string back |
| CStrings.SplitJoin | heca-all.c:100-102 | delimiter-free fields are recovered from their join |
| CStrings.StrToULLOfDecimal | heca-all.c:63 | strtoull reads back the decimal spelling of every value up to ULLONG_MAX, whatever non-digit text follows |
| CStrings.StrTokTokens | heca-all.c:365-366 | strtok returns no token exactly when there are none; otherwise it returns the first token and resumes at the text holding the remaining ones |
| Options.GetParamValue | heca-all.c:48-55 | the value found is the first pair with that key, truncated to the buffer; an empty value reads as missing |
| Options.GetParam | heca-all.c:48-55 | succeeds exactly when get_param_value finds a non-empty value, and yields that value |
| Options.GetParamInt | heca-all.c:57-70 | a result is always in 1..0xFFFF; a missing parameter exits |
| Options.GetParamIntOfDecimal | heca/commandline.c:13-26 | every decimal value in 1..0xFFFF is read back, even with non-digit text after it |
| Options.GetParamIntRejectsOutOfRange | heca/commandline.c:19-24 | zero and values from 0x10000 to 2^32-1 exit |
| Options.GetParamIntWrapsAt32Bits | heca/commandline.c:16-20 | because the value passes through a uint32_t, 2^32 + n is accepted as n |
| Options.GetParamIntRejectsNonNumeric | heca/commandline.c:19-24 | a value not starting with a digit, sign or space reads as 0 and exits |
| CommandLine.ParseNodeRecord | heca-all.c:100-131 | a node record parses exactly when its id fits in 16 bits, into the node its `:`-fields describe; otherwise it exits with the invalid id |
| CommandLine.ParseRegionRecord | heca-all.c:150-196 | a region record parses exactly when its size is a non-zero page multiple and its owners fit, into the region its `:`-fields describe; otherwise it exits with the wrong size or with too many owners |
| CommandLine.NodeListRecords | heca-all.c:95-134 | on terminated 4-field records the node loop succeeds exactly when every id fits in 16 bits, and yields one node per record, in order |
| CommandLine.ParseNodeListValid | heca/commandline.c:51-89 | for any input, every node yielded carries the domain id, a 16-bit id and a 16-bit port |
| CommandLine.ParseOwners | heca-all.c:182-195 | the owner loop succeeds exactly when the owner fields fit in the remaining MAX_SVM_IDS slots, and yields their ids in order |
| CommandLine.RegionListRecords | heca-all.c:149-200 | on terminated 3-field records the region loop succeeds exactly when every size is a non-zero page multiple and the owners fit, and yields one region per record, in order |
| CommandLine.ParseRegionListValid | heca/commandline.c:104-157 | for any input, every region yielded passed the size and owner checks, has no address and has both flags clear |
| CommandLine.ParseMasterCommandline | heca-all.c:73-84 | a parsed master is always local node 1, with a domain id below 256 |
| CommandLine.MasterCommandlineValid | heca/commandline.c:29-165 | for any input, a parsed master configuration holds only nodes and regions that passed their checks |
| CommandLine.MasterCommandlineRecords | heca-all.c:73-210 | for well-formed lists the master parse succeeds exactly when all node ids and regions pass, with one node per `vminfo` record and one region per `mr` record, in order |
| CommandLine.NodeListRoomFree | heca/commandline.c:45-46 | a `vminfo` value that fits in both line buffers is equally safe and parses to the same nodes with either |
| CommandLine.RegionListRoomFree | heca/commandline.c:45-46 | an `mr` value that fits in both line buffers is equally safe and parses to the same regions with either |
| CommandLine.MasterSafeRevisionsAgree | heca-all.c:78-90 | values come through 128-byte option buffers, so with the 500-byte or the 200-byte line buffers, one revision's master parse is safe exactly when the other's is |
| CommandLine.MasterParseRevisionsAgree | heca/commandline.c:34-46 | for the same reason, both revisions give the same result for every master command line |
| CommandLine.ClientCommandlineFields | heca/commandline.c:167-208 | the client parse succeeds exactly when `dsmid`, `vmid` and `master` are valid; the master is the first field with the port of the third field (the TCP port) |
| DirtyBitmap.RunsMaximal | heca-all.c:563-594 | the runs cover exactly the dirty pages, are non-empty, lie inside the bitmap and are separated by clean pages |
| DirtyBitmap.MaximalRunsUnique | heca-all.c:563-594 | any list of runs with those properties is the reducer's list of runs |
| Reducer.UnmapRequestFor | heca-all.c:506-513 | an unmap request is for DSM 1, region id 0, owner list [2, 0], with the given range; only heca/qemu-heca.c sets `unmap` |
| Reducer.UnmapMemory | heca/qemu-heca.c:251-255 | any non-zero ioctl result becomes -1, and zero is returned as is |
| Reducer.UnmapDirtyBitmap | heca-all.c:551-598 | the single scan with an open offset and size sends exactly the runs' requests, in order, stopping at the first failure |
| Reducer.SubmitSucceeds | heca-all.c:586-597 | when every request succeeds, all are sent, the read of all RAM follows and 0 is returned |
| Reducer.SubmitFailsAt | heca-all.c:576-579 | when request k is the first to fail, requests 0..k are sent, nothing else happens and -1 is returned |
| Reducer.ReduceResult | heca/qemu-heca.c:286-332 | the result is 0 exactly when every unmap succeeds, and -1 otherwise |
| Reducer.ReduceTouchesRamIffSuccess | heca-all.c:595-597 | the read of all RAM starts, as the last effect, exactly when the result is 0 |
| Reducer.ReduceAllClean | heca-all.c:563-597 | a clean bitmap unmaps nothing, starts the read of all RAM and returns 0 |
| Reducer.ReduceAllDirty | heca-all.c:563-594 | an all-dirty bitmap is unmapped with one request from the start of RAM for all its pages |
| Reducer.ReduceUnmapsInsideRam | heca-all.c:568-589 | when the bitmap describes no more than guest RAM, every unmap request lies inside guest RAM |
| Reducer.RunRequestAsWrittenLeavesRam | heca-all.c:569 | with page offsets computed in `int`, a dirty page at 2 GiB is unmapped 2 GiB below guest RAM |
| Layout.AssignMasterMem | heca-all.c:396-409 | region j is placed at the start of RAM plus the sizes before it when that start is not beyond the end of RAM, and untouched otherwise; the result is 0 exactly when every region was placed |
| Layout.AssignBackToBack | heca/qemu-heca.c:137-142 | placed regions are back to back: each starts where the previous one ends |
| Layout.AssignChecksStartsOnly | heca-all.c:402 | only starts are checked: a region starting exactly at the end of RAM is placed and reaches past it |
| Phase.StartMigTimer | heca-all.c:529-534 | arming the timer leaves both flags unchanged |
| Phase.MigTimerExpired | heca-all.c:523-527 | the callback marks the timer expired and deletes it |
| Phase.SetPostCopyPhase | heca-all.c:541-544 | leaving pre-copy does not affect the timer |
| Phase.ExpiryIsSticky | heca/qemu-heca.c:258-274 | once expired, the timer stays expired |
| Phase.PostCopyIsFinal | heca-all.c:541-549 | nothing returns the glue to the pre-copy phase |
| Phase.NeverPreCopy | heca-all.c:546-549 | from the zeroed global, the pre-copy query is false after any sequence of the modelled operations |
| Phase.ExpiryNeedsStartThenFire | heca-all.c:523-539 | the timer expires only if it was started and its callback then ran |
| Bootstrap.HecaConfig | heca-all.c:371-393 | each port is the file's `int` value, negative ones included, when it could be read, and its default (4444, 4445) otherwise; nothing else changes |
| Bootstrap.IpFromUri | heca-all.c:358-369 | the result is the second `:`-token of the (truncated) URI copy, and NULL when there is none |
| Bootstrap.IpFromUriOfUri | heca/qemu-heca.c:95-105 | `scheme:ip:port` yields `ip` |
| Bootstrap.IpFromUriOfOneToken | heca-all.c:365-368 | a URI with a single token yields NULL |
| Bootstrap.MigrationNode | heca/qemu-heca.c:18-21 | a migration node belongs to DSM 1; heca-all.c keeps the ip and stores the port through htons, heca/qemu-heca.c truncates the ip to MAX_ADDR_STR and keeps the port |
| Bootstrap.NegativeRdmaPort | heca-all.c:264-279 | a configured RDMA port of -1 reaches a heca-all.c migration node as 65535 through htons, and a heca/qemu-heca.c one as -1 |
| Bootstrap.MigrationRegion | heca-all.c:286-303 | the live-migration region is region 1 of DSM 1, owned by node 2, copy-on-access and not auto-unmapped, and spans exactly guest RAM |
| Bootstrap.MigrateDestInit | heca-all.c:256-318 | without guest RAM the destination exits before opening; otherwise it opens as master with node 1 at the destination ip and node 2 at the source ip, both on the configured RDMA port, and one copy-on-access region over all of RAM, and exits exactly on a negative descriptor |
| Bootstrap.MigrateSrcInit | heca-all.c:320-356 | a URI without an ip token crashes in `inet_addr` before anything else happens; otherwise the source arms the timer first, exits without guest RAM, and otherwise opens as client node 2 over all of RAM towards the URI's ip on the TCP sync port, exiting exactly on a negative descriptor |
| Phase.TimerDeadline | heca-all.c:529-534 | the deadline handed to `qemu_mod_timer` is the clock plus the timeout, wrapped into a signed 64-bit value |
| Bootstrap.NegativePrecopyTimeFiresAtOnce | heca-all.c:320-335 | a negative pre-copy time p reaches the timer as 2^64 + p, whose wrapped deadline lies p ms before the current time, so the timer is already due |
| Bootstrap.MigrationEndsAgree | heca/qemu-heca.c:9-93 | the source's id is the second node the destination registers, both use DSM 1, and the region is owned by the source and spans the destination's RAM |
| Session.MarkAutoUnmap | heca/qemu-heca.c:341-345 | a master region is auto-unmapped; only heca-all.c keeps the copy-on-access bit |
| Session.MasterCmdlineInit | heca-all.c:600-609 | the glue becomes an enabled master holding the parsed nodes and regions, each region marked for auto-unmap; the counts grow by one per parsed record, so from the zeroed global they are the list lengths; a parse error exits |
| Session.MasterRegionsFlags | heca-all.c:606-608 | in both revisions every master region ends auto-unmapped and not copied on access |
| Session.MasterRevisionsAgree | heca/qemu-heca.c:334-347 | for every command line, both revisions store the same master record |
| Session.ClientCmdlineInit | heca-all.c:611-616 | the glue becomes an enabled client with the parsed domain, id and master address, and keeps its node and region lists |
| Session.HecaInit | heca-all.c:618-642 | a master opens with its nodes and its laid-out regions, a client opens over guest RAM towards its master, and a negative descriptor exits |
| Session.MasterStartup | heca/qemu-heca.c:356-380 | a master started from the command line opens with the parsed nodes and each parsed region auto-unmapped, not copied on access, and placed after the regions before it when those fit |
| Session.InitIgnoresLayoutFailure | heca-all.c:625-629 | the engine is opened even when some region found no room, and such a region keeps its old address |
| Session.ClientStartup | heca/commandline.c:167-208 | a client opens as node `vmid` towards the first field of `master` on the port of its third field |

## Left out

- The option string is given already split into `key=value` pairs. QEMU's splitting of a `-heca` argument into pairs is not part of this model.
- `inet_addr` is not modelled: addresses stay strings. So an invalid address (INADDR_NONE) is not distinguished.
- Bootstrap.HecaConfig: the read values are C `int`s. A `%d` conversion of a number outside the `int` range is undefined in C and is not modelled.
- `heca_config` does not read `~/.heca_config` or expand it with `wordexp`. The values the file yields are inputs, and the file handle is never closed, which is not modelled either.
- Timers and the clock are left out. Arming the timer is an event, and the callback firing is a separate operation (`Phase.Apply` with `Fire`).
- The touch-all-RAM worker thread is left out, because it is concurrent and reads guest memory. Its start is an event.
- `print_data_structures` and all debug printing are left out, because they have no effect on state.
- Memory allocation (`g_malloc0`, `calloc`, GSList) is left out; lists are sequences.
- Bootstrap.IpFromUri: in heca/qemu-heca.c a URI of MAX_ADDR_STR characters or more fills the `strncpy` copy without a terminating NUL, so `strtok` reads past the buffer. This is excluded by the precondition `UriFits` rather than modelled.
- Bootstrap.MigrateSrcInit: the same unterminated copy is excluded by `UriFits`. A URI with fewer than two `:`-tokens is modelled: `inet_addr(NULL)` crashes, shown as the abort `NullAddress`.
- CommandLine.NodeIdFits: `svm_id`, `svm_ids[]` and `mr_id` are taken to hold the full `strtoull` value. Their widths are declared in libheca.h, which is not part of this model; a narrower field would make the `& 0xFFFF` check see a truncated value.
- Session.MasterCmdlineInit: with a non-zero count before parsing, the copy loops read past the end of the parsed lists (`g_slist_nth_data` yields NULL). That is not modelled: the arrays hold exactly the parsed lists.
- `ip_from_uri` returns a pointer into its own stack buffer, which is dangling once it returns. The model treats the token as still readable.
- CommandLine.ParseNodeList: records whose id passes its check but whose later fields run past the NUL, and records longer than the line buffers, are excluded by preconditions (`NodeListSafe`, `RegionListSafe`, `MasterAddrSafe`) rather than modelled. They are undefined behaviour in C.
- Reducer.UnmapDirtyBitmap: the `int` loop counter is bounded by the `uint32_t` bitmap size. A bitmap of 2^31 pages or more, where `i++` would overflow, is not modelled; the precondition admits at most INT_MAX pages.
- Reducer.PageOffset: the corrected offset is computed without overflow; the written 32-bit `int` product is modelled separately (see Findings).
- Layout.AssignMasterMem: pointer arithmetic is unbounded; `ram_ptr + ram_size` wrapping past the top of the address space is not modelled.
- Node ports read by `strtoull` are reduced to 16 bits by `htons`; the `int` fields of the client parser before `htons` are not modelled separately, since only the low 16 bits reach the address.
- The unmap request of `heca_unmap_memory` uses region id 0 while the destination registers region 1. The model records this as written (`Reducer.UnmapRequestFor`); what the engine does with it is not part of this model.

## Findings

| source | as written | input that shows it | evidently intended | confidence | as-written member | corrected member |
|---|---|---|---|---|---|---|
| heca-all.c:569 | `unmap_offset = i * TARGET_PAGE_SIZE` multiplies two `int`s, so the byte offset wraps at 2^31 and is then sign-extended into the `unsigned long` | 4 KiB pages, guest RAM of 2 GiB + 4 KiB at host address 2^40, only page 524288 dirty: the request goes to 2^40 - 2^31, below guest RAM | the offset computed in 64 bits, 2^40 + 2^31, inside guest RAM | not executed | Reducer.RunRequestAsWrittenLeavesRam | Reducer.ReduceUnmapsInsideRam |
