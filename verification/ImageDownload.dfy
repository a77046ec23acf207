/** Downloading an image to a flash partition in chunks (do_image_download), the flag word that carries
    the chunk number, and what the device's flash holds after any part of a download. */
module ImageDownload {
  import opened Bytes

  type uint8 = x: int | 0 <= x < 0x100
  type uint16 = x: int | 0 <= x < 0x1_0000
  type uint32 = x: int | 0 <= x < 0x1_0000_0000

  /** PDI_CHUNK_SIZE * PDI_CHUNK_MULTIPLIER */
  const CHUNK := 32 * 1024
  const MAX_PARTITION := 15
  const FPT_UPDATE_FLAG := 0xAA
  const FPT_UPDATE_MAGIC := 0xAAAA_AAAA
  const EINVAL := 22

  /** The image size up to which the 15-bit chunk number of the flags does not repeat. */
  const MAX_FAITHFUL := 0x4000_0000

  const INVALID_BOOT_TAG: bytes := [0xFF, 0xFF, 0xFF, 0xFF]

  // ----- The flag word -----

  /** MK_PDI_FLAGS */
  function MkPdiFlags(boot: uint8, part: uint32, chunk: uint16, last: bool): (flags: uint32) {
    boot * 0x100_0000 + part as int % 0x100 * 0x1_0000 + chunk as int % 0x8000 + (if last then 0x8000 else 0)
  }

  function PdiBootDevice(flags: uint32): uint8 {
    flags as int / 0x100_0000
  }

  function PdiPartition(flags: uint32): uint8 {
    flags as int / 0x1_0000 % 0x100
  }

  function PdiChunk(flags: uint32): uint16 {
    flags as int % 0x8000
  }

  function PdiChunkIsLast(flags: uint32): bool {
    flags as int / 0x8000 % 2 == 1
  }

  /** Unpacking returns what was packed; the chunk number loses its top bit. */
  lemma FlagsUnpack(boot: uint8, part: uint32, chunk: uint16, last: bool)
    ensures var f := MkPdiFlags(boot, part, chunk, last);
            && PdiBootDevice(f) == boot && PdiPartition(f) == part as int % 0x100
            && PdiChunk(f) == chunk as int % 0x8000 && PdiChunkIsLast(f) == last
  {
    var low := chunk as int % 0x8000 + (if last then 0x8000 else 0);
    FlagParts(boot, part as int % 0x100, low);
  }

  lemma FlagParts(boot: uint8, part: uint8, low: uint16)
    ensures var f := boot as int * 0x100_0000 + part as int * 0x1_0000 + low as int;
            && f / 0x100_0000 == boot && f / 0x1_0000 % 0x100 == part
            && f % 0x8000 == low as int % 0x8000 && f / 0x8000 % 2 == low as int / 0x8000
  {
    var f := boot as int * 0x100_0000 + part as int * 0x1_0000 + low as int;
    assert f / 0x1_0000 == boot as int * 0x100 + part as int;
    assert f / 0x8000 == (boot as int * 0x100 + part as int) * 2 + low as int / 0x8000;
  }

  // ----- The device -----

  /** What a download command writes to: a partition of one of the two boot devices, or its FPT. */
  datatype Region = Partition(device: int, number: int) | Fpt(device: int)

  /** The download request that reaches the device: the target, the chunk number and the data. */
  datatype Request = Request(region: Region, chunk: nat, last: bool, data: bytes)

  /** The request that submit_gcq_command and amc_proxy_request_pdi_download make of a flag word. The
      boot device has one bit and the partition four bits in the request. */
  function ToRequest(flags: uint32, data: bytes): Request {
    Request(
      if PdiPartition(flags) == FPT_UPDATE_FLAG then Fpt(PdiBootDevice(flags) as int % 2)
      else Partition(PdiBootDevice(flags) as int % 2, PdiPartition(flags) as int % 16),
      PdiChunk(flags), PdiChunkIsLast(flags), data)
  }

  /** The contents of the flash, by region and offset. */
  type Flash = (Region, nat) -> byte

  /** A request writes its data at the offset of its chunk. */
  function Written(f: Flash, r: Request): Flash {
    (region: Region, a: nat) => ByteWritten(f, r, region, a)
  }

  function ByteWritten(f: Flash, r: Request, region: Region, a: nat): byte {
    if region == r.region && r.chunk * CHUNK <= a < r.chunk * CHUNK + |r.data| then r.data[a - r.chunk * CHUNK]
    else f(region, a)
  }

  function Replay(f: Flash, rs: seq<Request>): Flash {
    if rs == [] then f else Written(Replay(f, rs[..|rs| - 1]), rs[|rs| - 1])
  }

  /** The device and the command path to it. A command that reports success has taken effect; one that
      reports failure may or may not have. */
  class Device {
    ghost var flash: Flash
    ghost var requests: seq<Request>

    /** submit_gcq_command for GCQ_SUBMIT_CMD_DOWNLOAD_PDI */
    method Submit(flags: uint32, data: bytes) returns (ret: int)
      modifies this
      ensures requests == old(requests) + [ToRequest(flags, data)]
      ensures flash == old(flash) || flash == Written(old(flash), ToRequest(flags, data))
      ensures ret == 0 ==> flash == Written(old(flash), ToRequest(flags, data))
    {
      ret := *;
      var lost: bool := *;
      requests := requests + [ToRequest(flags, data)];
      if ret == 0 || !lost {
        flash := Written(flash, ToRequest(flags, data));
      }
    }
  }

  // ----- The plan of a download -----

  datatype Target = Target(boot: uint8, fpt: bool, partition: uint8)

  predicate TargetOk(t: Target) {
    !t.fpt ==> t.partition <= MAX_PARTITION
  }

  function TargetRegion(t: Target): Region {
    if t.fpt then Fpt(t.boot as int % 2) else Partition(t.boot as int % 2, t.partition)
  }

  /** Number of chunks of an image. */
  function Chunks(size: nat): (n: nat)
    ensures size > 0 ==> n > 0 && (n - 1) * CHUNK < size <= n * CHUNK
  {
    (size + (CHUNK - 1)) / CHUNK
  }

  /** `num_chunks`, a 16-bit variable computed with 32-bit arithmetic. */
  function NumChunks(size: nat): (n: uint16) {
    (size + (CHUNK - 1)) % 0x1_0000_0000 / CHUNK % 0x1_0000
  }

  /** Whether loop iteration `k` invalidates the boot tag instead of writing its chunk. */
  predicate Invalidates(t: Target, size: nat, k: nat) {
    !t.fpt && NumChunks(size) != 1 && !(NumChunks(size) > 1 && k % 0x1_0000 != 0)
  }

  function ChunkEnd(size: nat, k: nat): (e: nat)
    requires k * CHUNK <= size
    ensures k * CHUNK <= e <= size && e <= (k + 1) * CHUNK
  {
    if CHUNK > size - k * CHUNK then size else (k + 1) * CHUNK
  }

  /** The request of loop iteration `k`. */
  function StepRequest(t: Target, buf: bytes, k: nat): Request
    requires k < Chunks(|buf|)
  {
    var region := TargetRegion(t);
    if Invalidates(t, |buf|, k) then Request(region, 0, false, INVALID_BOOT_TAG)
    else
      Request(region, k % 0x1_0000 % 0x8000,
              !(k > 0 && Invalidates(t, |buf|, 0)) && k % 0x1_0000 == NumChunks(|buf|) - 1,
              buf[k * CHUNK..ChunkEnd(|buf|, k)])
  }

  /** All requests of a download that never fails, for an image of any size. */
  function Plan(t: Target, buf: bytes): seq<Request> {
    seq(Chunks(|buf|), k requires 0 <= k < Chunks(|buf|) => StepRequest(t, buf, k)) +
    (if |buf| > CHUNK && Invalidates(t, |buf|, 0) then [Request(TargetRegion(t), 0, true, buf[..CHUNK])] else [])
  }

  /** The progress signals that the first `k` requests raise when they succeed. */
  function Progress(t: Target, buf: bytes, k: nat): seq<nat>
    requires k <= |Plan(t, buf)|
  {
    if k == 0 then []
    else if k - 1 < Chunks(|buf|) && Invalidates(t, |buf|, k - 1) then Progress(t, buf, k - 1)
    else Progress(t, buf, k - 1) + [|Plan(t, buf)[k - 1].data|]
  }

  function Sum(s: seq<nat>): nat {
    if s == [] then 0 else Sum(s[..|s| - 1]) + s[|s| - 1]
  }

  // ----- The download as it runs -----

  lemma RequestOfFlags(t: Target, part: uint32, chunk: uint16, last: bool, data: bytes)
    requires TargetOk(t) && part as int % 0x100 == (if t.fpt then FPT_UPDATE_FLAG else t.partition)
    ensures ToRequest(MkPdiFlags(t.boot, part, chunk, last), data)
         == Request(TargetRegion(t), chunk as int % 0x8000, last, data)
  {
    FlagsUnpack(t.boot, part, chunk, last);
  }

  lemma PlanAt(t: Target, buf: bytes, k: nat)
    requires k < |Plan(t, buf)|
    ensures Plan(t, buf)[..k + 1] == Plan(t, buf)[..k] + [Plan(t, buf)[k]]
    ensures k < Chunks(|buf|) ==> Plan(t, buf)[k] == StepRequest(t, buf, k)
  {
  }

  lemma ReplayNext(f: Flash, t: Target, buf: bytes, k: nat)
    requires k < |Plan(t, buf)|
    ensures Replay(f, Plan(t, buf)[..k + 1]) == Written(Replay(f, Plan(t, buf)[..k]), Plan(t, buf)[k])
  {
    assert Plan(t, buf)[..k + 1][..k] == Plan(t, buf)[..k];
  }

  /** The flash after `n` requests were issued: all of them took effect, except that the last one may
      have failed without effect. */
  ghost predicate Reached(f: Flash, f0: Flash, t: Target, buf: bytes, n: nat) {
    0 < n <= |Plan(t, buf)| && (f == Replay(f0, Plan(t, buf)[..n]) || f == Replay(f0, Plan(t, buf)[..n - 1]))
  }

  /** `states` are the contents of the flash after each request of a download. */
  ghost predicate History(states: seq<Flash>, f0: Flash, t: Target, buf: bytes) {
    forall j | 0 <= j < |states| :: Reached(states[j], f0, t, buf, j + 1)
  }

  lemma HistoryGrows(states: seq<Flash>, f: Flash, f0: Flash, t: Target, buf: bytes)
    requires History(states, f0, t, buf) && |states| < |Plan(t, buf)|
    requires f == Replay(f0, Plan(t, buf)[..|states|]) || f == Replay(f0, Plan(t, buf)[..|states| + 1])
    ensures History(states + [f], f0, t, buf)
  {
    assert Reached(f, f0, t, buf, |states| + 1);
    hide Reached, Replay, Plan;
    assert forall j | 0 <= j < |states| + 1 :: j < |states| ==> (states + [f])[j] == states[j];
  }

  /** One iteration of the loop of do_image_download, up to the check of the result. */
  method DownloadChunk(dev: Device, ghost t: Target, buf: bytes, bootDevice: uint8, part: uint8,
                       numChunks: uint16, chunk: uint16, bytesWritten: nat, rewriteBootTag: bool, efd: bool,
                       ghost k: nat)
    returns (ret: int, bytesToWrite: nat, signalled: seq<nat>, invalidated: bool)
    requires TargetOk(t) && t.boot == bootDevice && part == (if t.fpt then FPT_UPDATE_FLAG else t.partition)
    requires k < Chunks(|buf|) && numChunks == NumChunks(|buf|) && chunk == k % 0x1_0000
    requires bytesWritten == k * CHUNK < |buf| && rewriteBootTag == (k > 0 && Invalidates(t, |buf|, 0))
    modifies dev
    ensures dev.requests == old(dev.requests) + [Plan(t, buf)[k]]
    ensures dev.flash == old(dev.flash) || dev.flash == Written(old(dev.flash), Plan(t, buf)[k])
    ensures ret == 0 ==> dev.flash == Written(old(dev.flash), Plan(t, buf)[k])
    ensures bytesToWrite == ChunkEnd(|buf|, k) - k * CHUNK
    ensures invalidated == Invalidates(t, |buf|, k)
    ensures signalled == if ret == 0 && efd && !invalidated then [|Plan(t, buf)[k].data|] else []
  {
    hide *;
    StepGuard(t, |buf|, k, part, numChunks, chunk);
    signalled, invalidated := [], false;
    if CHUNK > |buf| - bytesWritten {
      bytesToWrite := |buf| - bytesWritten;
    } else {
      bytesToWrite := CHUNK;
    }
    if part == FPT_UPDATE_FLAG || numChunks == 1 || (numChunks > 1 && chunk != 0) {
      var last := !rewriteBootTag && chunk == numChunks - 1;
      var data := buf[bytesWritten..bytesWritten + bytesToWrite];
      DataStep(t, buf, k, part, last);
      ret := dev.Submit(MkPdiFlags(bootDevice, part, chunk, last), data);
      if ret == 0 && efd {
        signalled := [bytesToWrite];
      }
    } else {
      TagStep(t, buf, k, part);
      ret := dev.Submit(MkPdiFlags(bootDevice, part, 0, false), INVALID_BOOT_TAG);
      invalidated := true;
    }
  }

  lemma NextChunk(chunk: uint16, k: nat)
    requires chunk == k % 0x1_0000
    ensures (chunk as int + 1) % 0x1_0000 == (k + 1) % 0x1_0000
  {
  }

  lemma ChunkProgress(size: nat, k: nat)
    requires k < Chunks(size)
    ensures k * CHUNK < ChunkEnd(size, k) == (if k + 1 == Chunks(size) then size else (k + 1) * CHUNK)
  {
  }

  lemma AllChunksDone(size: nat, k: nat)
    requires 0 < size && k <= Chunks(size) && (k < Chunks(size) ==> k * CHUNK >= size)
    ensures k == Chunks(size)
  {
  }

  lemma StepGuard(t: Target, size: nat, k: nat, part: uint8, numChunks: uint16, chunk: uint16)
    requires TargetOk(t) && part == (if t.fpt then FPT_UPDATE_FLAG else t.partition)
    requires k < Chunks(size) && numChunks == NumChunks(size) && chunk == k % 0x1_0000
    ensures Invalidates(t, size, k) <==> !(part == FPT_UPDATE_FLAG || numChunks == 1 || (numChunks > 1 && chunk != 0))
    ensures k * CHUNK < size && ChunkEnd(size, k) == (if CHUNK > size - k * CHUNK then size else k * CHUNK + CHUNK)
    ensures CHUNK > 0
  {
  }

  lemma DataStep(t: Target, buf: bytes, k: nat, part: uint8, last: bool)
    requires TargetOk(t) && part == (if t.fpt then FPT_UPDATE_FLAG else t.partition)
    requires k < Chunks(|buf|) && !Invalidates(t, |buf|, k)
    requires last == (!(k > 0 && Invalidates(t, |buf|, 0)) && k % 0x1_0000 == NumChunks(|buf|) - 1)
    ensures k < |Plan(t, buf)| && k * CHUNK <= ChunkEnd(|buf|, k) <= |buf|
    ensures Plan(t, buf)[k]
         == ToRequest(MkPdiFlags(t.boot, part, k % 0x1_0000, last), buf[k * CHUNK..ChunkEnd(|buf|, k)])
    ensures |Plan(t, buf)[k].data| == ChunkEnd(|buf|, k) - k * CHUNK
  {
    PlanAt(t, buf, k);
    RequestOfFlags(t, part, k % 0x1_0000, last, buf[k * CHUNK..ChunkEnd(|buf|, k)]);
    hide Plan, ToRequest, MkPdiFlags, NumChunks;
  }

  lemma TagStep(t: Target, buf: bytes, k: nat, part: uint8)
    requires TargetOk(t) && part == (if t.fpt then FPT_UPDATE_FLAG else t.partition)
    requires k < Chunks(|buf|) && Invalidates(t, |buf|, k)
    ensures k < |Plan(t, buf)|
    ensures ToRequest(MkPdiFlags(t.boot, part, 0, false), INVALID_BOOT_TAG) == Plan(t, buf)[k]
  {
    PlanAt(t, buf, k);
    RequestOfFlags(t, part, 0, false, INVALID_BOOT_TAG);
  }

  /** How a download of `buf` ran: `history` is the flash after each of the requests issued, which are a
      prefix of the plan, the whole plan when it succeeded, and one signal was raised for each image
      chunk accepted. */
  ghost predicate Ran(t: Target, buf: bytes, efd: bool, f0: Flash, ret: int, signals: seq<nat>, history: seq<Flash>) {
    && 0 < |history| <= |Plan(t, buf)| && History(history, f0, t, buf)
    && (ret == 0 ==> |history| == |Plan(t, buf)| && history[|history| - 1] == Replay(f0, Plan(t, buf)))
    && signals == if efd then Progress(t, buf, if ret == 0 then |history| else |history| - 1) else []
  }

  /** do_image_download */
  method DoImageDownload(dev: Device, buf: bytes, bootDevice: uint8, partition: uint32, efd: bool)
    returns (ret: int, signals: seq<nat>, ghost history: seq<Flash>)
    requires |buf| < 0x1_0000_0000
    modifies dev
    ensures buf == [] || (partition != FPT_UPDATE_MAGIC && partition > MAX_PARTITION) ==>
              ret == -EINVAL && history == [] && signals == [] && unchanged(dev)
    ensures buf != [] && (partition == FPT_UPDATE_MAGIC || partition <= MAX_PARTITION) ==>
              var t := Target(bootDevice, partition == FPT_UPDATE_MAGIC, partition as int % 0x100);
              && Ran(t, buf, efd, old(dev.flash), ret, signals, history)
              && dev.requests == old(dev.requests) + Plan(t, buf)[..|history|]
              && dev.flash == history[|history| - 1]
  {
    var part: uint8;
    if buf == [] {
      return -EINVAL, [], [];
    }
    if partition == FPT_UPDATE_MAGIC {
      part := FPT_UPDATE_FLAG;
    } else {
      if partition > MAX_PARTITION {
        return -EINVAL, [], [];
      }
      part := partition;
    }
    ghost var t := Target(bootDevice, partition == FPT_UPDATE_MAGIC, partition as int % 0x100);
    ret, signals, history := DownloadChunks(dev, t, buf, bootDevice, part, partition, efd);
  }

  /** The loop of do_image_download, and the final rewrite of the first chunk. */
  method DownloadChunks(dev: Device, ghost t: Target, buf: bytes, bootDevice: uint8, part: uint8, partition: uint32,
                        efd: bool)
    returns (ret: int, signals: seq<nat>, ghost history: seq<Flash>)
    requires 0 < |buf| < 0x1_0000_0000 && TargetOk(t) && t.boot == bootDevice
    requires part == (if t.fpt then FPT_UPDATE_FLAG else t.partition) && (!t.fpt ==> t.partition == partition)
    modifies dev
    ensures Ran(t, buf, efd, old(dev.flash), ret, signals, history)
    ensures dev.requests == old(dev.requests) + Plan(t, buf)[..|history|]
    ensures dev.flash == history[|history| - 1]
  {
    hide *;
    var size := |buf|;
    var chunk: uint16 := 0;
    var bytesWritten := 0;
    var rewriteBootTag := false;
    var numChunks := NumChunks(size);
    ghost var f0 := dev.flash;
    ret, signals, history := 0, [], [];
    PlanLength(t, buf);
    while bytesWritten < size
      invariant |history| <= Chunks(size) && chunk == |history| % 0x1_0000
      invariant bytesWritten == if |history| == Chunks(size) then size else |history| * CHUNK
      invariant rewriteBootTag == (|history| > 0 && Invalidates(t, size, 0))
      invariant dev.requests == old(dev.requests) + Plan(t, buf)[..|history|]
      invariant dev.flash == Replay(f0, Plan(t, buf)[..|history|]) && History(history, f0, t, buf)
      invariant |history| > 0 ==> dev.flash == history[|history| - 1]
      invariant signals == if efd then Progress(t, buf, |history|) else []
    {
      ghost var k := |history|;
      ChunkProgress(size, k);
      PlanAt(t, buf, k);
      ReplayNext(f0, t, buf, k);
      ProgressNext(t, buf, k);
      var bytesToWrite, signalled, invalidated;
      ret, bytesToWrite, signalled, invalidated :=
        DownloadChunk(dev, t, buf, bootDevice, part, numChunks, chunk, bytesWritten, rewriteBootTag, efd, k);
      HistoryGrows(history, dev.flash, f0, t, buf);
      history := history + [dev.flash];
      if ret != 0 {
        RanInPart(t, buf, efd, f0, ret, signals, history);
        return;
      }
      signals := signals + signalled;
      rewriteBootTag := rewriteBootTag || invalidated;
      NextChunk(chunk, k);
      chunk := (chunk + 1) % 0x1_0000;
      bytesWritten := bytesWritten + bytesToWrite;
    }
    AllChunksDone(size, |history|);
    ghost var requests := old(dev.requests);
    ret, signals, history :=
      RewriteFirstChunk(dev, t, buf, bootDevice, partition, efd, rewriteBootTag, signals, f0, requests, history);
  }

  /** What follows the loop of do_image_download. `f0` and `requests` are from before the download. */
  method RewriteFirstChunk(dev: Device, ghost t: Target, buf: bytes, bootDevice: uint8, partition: uint32, efd: bool,
                           rewriteBootTag: bool, soFar: seq<nat>,
                           ghost f0: Flash, ghost requests: seq<Request>, ghost before: seq<Flash>)
    returns (ret: int, signals: seq<nat>, ghost history: seq<Flash>)
    requires buf != [] && TargetOk(t) && t.boot == bootDevice && (!t.fpt ==> t.partition == partition)
    requires |before| == Chunks(|buf|) && rewriteBootTag == Invalidates(t, |buf|, 0)
    requires dev.requests == requests + Plan(t, buf)[..|before|]
    requires dev.flash == Replay(f0, Plan(t, buf)[..|before|]) && History(before, f0, t, buf)
    requires |before| > 0 && dev.flash == before[|before| - 1]
    requires soFar == if efd then Progress(t, buf, |before|) else []
    modifies dev
    ensures Ran(t, buf, efd, f0, ret, signals, history)
    ensures dev.requests == requests + Plan(t, buf)[..|history|]
    ensures dev.flash == history[|history| - 1]
  {
    hide *;
    PlanLength(t, buf);
    ret, signals, history := 0, soFar, before;
    if rewriteBootTag {
      ghost var k := |history|;
      PlanAt(t, buf, k);
      ReplayNext(f0, t, buf, k);
      ProgressNext(t, buf, k);
      ret := RewriteBootTag(dev, t, buf, bootDevice, partition);
      HistoryGrows(history, dev.flash, f0, t, buf);
      history := history + [dev.flash];
      if ret != 0 {
        RanInPart(t, buf, efd, f0, ret, signals, history);
        return;
      }
      if efd {
        signals := signals + [CHUNK];
      }
    }
    RanInFull(t, buf, efd, f0, signals, history);
  }

  lemma RanInPart(t: Target, buf: bytes, efd: bool, f0: Flash, ret: int, signals: seq<nat>, history: seq<Flash>)
    requires ret != 0 && 0 < |history| <= |Plan(t, buf)| && History(history, f0, t, buf)
    requires signals == if efd then Progress(t, buf, |history| - 1) else []
    ensures Ran(t, buf, efd, f0, ret, signals, history)
  {
  }

  lemma RanInFull(t: Target, buf: bytes, efd: bool, f0: Flash, signals: seq<nat>, history: seq<Flash>)
    requires 0 < |history| == |Plan(t, buf)| && History(history, f0, t, buf)
    requires history[|history| - 1] == Replay(f0, Plan(t, buf)[..|history|])
    requires signals == if efd then Progress(t, buf, |history|) else []
    ensures Ran(t, buf, efd, f0, 0, signals, history)
  {
    hide Plan, History, Replay, Progress;
    assert Plan(t, buf)[..|history|] == Plan(t, buf);
  }

  /** The last command of do_image_download, which writes the first chunk over the invalid tag. */
  method RewriteBootTag(dev: Device, ghost t: Target, buf: bytes, bootDevice: uint8, partition: uint32)
    returns (ret: int)
    requires buf != [] && TargetOk(t) && t.boot == bootDevice && Invalidates(t, |buf|, 0) && t.partition == partition
    modifies dev
    ensures |Plan(t, buf)| == Chunks(|buf|) + 1 && |Plan(t, buf)[Chunks(|buf|)].data| == CHUNK
    ensures dev.requests == old(dev.requests) + [Plan(t, buf)[Chunks(|buf|)]]
    ensures dev.flash == old(dev.flash) || dev.flash == Written(old(dev.flash), Plan(t, buf)[Chunks(|buf|)])
    ensures ret == 0 ==> dev.flash == Written(old(dev.flash), Plan(t, buf)[Chunks(|buf|)])
  {
    PlanLength(t, buf);
    RequestOfFlags(t, partition, 0, true, buf[..CHUNK]);
    hide Plan, ToRequest, MkPdiFlags, Chunks, NumChunks, Written;
    ret := dev.Submit(MkPdiFlags(bootDevice, partition, 0, true), buf[..CHUNK]);
  }

  lemma PlanLength(t: Target, buf: bytes)
    requires buf != []
    ensures Progress(t, buf, 0) == [] && (forall f: Flash :: Replay(f, []) == f && History([], f, t, buf))
    ensures Chunks(|buf|) > 0 && (Chunks(|buf|) - 1) * CHUNK < |buf| <= Chunks(|buf|) * CHUNK
    ensures Invalidates(t, |buf|, 0) ==> |buf| > CHUNK && !t.fpt
    ensures |Plan(t, buf)| == Chunks(|buf|) + (if Invalidates(t, |buf|, 0) then 1 else 0)
    ensures Invalidates(t, |buf|, 0) ==> Plan(t, buf)[Chunks(|buf|)] == Request(TargetRegion(t), 0, true, buf[..CHUNK])
    ensures Plan(t, buf)[..0] == [] && Plan(t, buf)[..|Plan(t, buf)|] == Plan(t, buf)
    ensures forall k | 0 < k :: Invalidates(t, |buf|, k) ==> Invalidates(t, |buf|, 0)
  {
  }

  lemma ProgressNext(t: Target, buf: bytes, k: nat)
    requires k < |Plan(t, buf)|
    ensures Progress(t, buf, k + 1) ==
            if k < Chunks(|buf|) && Invalidates(t, |buf|, k) then Progress(t, buf, k)
            else Progress(t, buf, k) + [|Plan(t, buf)[k].data|]
  {
  }
}
