/** What a download leaves in the flash: after success, after any failure, and how far the chunk number
    reaches. */
module DownloadSafety {
  import opened Bytes
  import opened ImageDownload

  predicate Faithful(buf: bytes) {
    0 < |buf| <= MAX_FAITHFUL
  }

  // ----- The plan of an image that fits the chunk number -----

  lemma SmallPlan(t: Target, size: nat)
    requires 0 < size <= MAX_FAITHFUL
    ensures Chunks(size) <= 0x8000 && NumChunks(size) == Chunks(size)
    ensures forall k | 0 <= k < Chunks(size) :: k % 0x1_0000 % 0x8000 == k == k % 0x1_0000
    ensures forall k | 0 <= k < Chunks(size) :: Invalidates(t, size, k) <==> !t.fpt && Chunks(size) > 1 && k == 0
    ensures Invalidates(t, size, 0) <==> !t.fpt && size > CHUNK
  {
    assert Chunks(size) == (size + (CHUNK - 1)) / CHUNK <= 0x8000;
  }

  /** The flash after the first `j` requests of the loop took effect: `j` chunks of the image, except
      that the first one may be an invalid boot tag over the old contents. */
  ghost function Partway(t: Target, buf: bytes, f: Flash, j: nat, region: Region, a: nat): byte {
    if region != TargetRegion(t) || a >= |buf| || a >= j * CHUNK then f(region, a)
    else if Invalidates(t, |buf|, 0) && a < CHUNK then (if a < 4 then 0xFF else f(region, a))
    else buf[a]
  }

  lemma StepContents(t: Target, buf: bytes, f: Flash, g: Flash, k: nat, region: Region, a: nat)
    requires Faithful(buf) && k < Chunks(|buf|) && g(region, a) == Partway(t, buf, f, k, region, a)
    ensures Written(g, StepRequest(t, buf, k))(region, a) == Partway(t, buf, f, k + 1, region, a)
  {
    SmallPlan(t, |buf|);
    var r := StepRequest(t, buf, k);
    assert k * CHUNK < |buf|;
    assert Written(g, r)(region, a) == ByteWritten(g, r, region, a);
    if Invalidates(t, |buf|, k) {
      assert k == 0;
    } else {
      assert r.chunk == k && r.data == buf[k * CHUNK..ChunkEnd(|buf|, k)];
    }
  }

  lemma {:induction false} LoopContents(t: Target, buf: bytes, f: Flash, j: nat, region: Region, a: nat)
    requires Faithful(buf) && j <= Chunks(|buf|)
    ensures j <= |Plan(t, buf)|
    ensures Replay(f, Plan(t, buf)[..j])(region, a) == Partway(t, buf, f, j, region, a)
  {
    if j > 0 {
      LoopContents(t, buf, f, j - 1, region, a);
      PlanAt(t, buf, j - 1);
      ReplayNext(f, t, buf, j - 1);
      StepContents(t, buf, f, Replay(f, Plan(t, buf)[..j - 1]), j - 1, region, a);
    }
  }

  /** A download that succeeds leaves exactly the image at the start of its target and changes nothing
      else in the flash. */
  lemma CompletedDownload(t: Target, buf: bytes, f: Flash, region: Region, a: nat)
    requires Faithful(buf)
    ensures Replay(f, Plan(t, buf))(region, a) ==
            if region == TargetRegion(t) && a < |buf| then buf[a] else f(region, a)
  {
    var n, plan := Chunks(|buf|), Plan(t, buf);
    LoopContents(t, buf, f, n, region, a);
    PlanLength(t, buf);
    if Invalidates(t, |buf|, 0) {
      ReplayNext(f, t, buf, n);
      var g := Replay(f, plan[..n]);
      assert plan[..n + 1] == plan;
      assert Written(g, plan[n])(region, a) == ByteWritten(g, plan[n], region, a);
    } else {
      assert plan[..n] == plan;
    }
  }

  // ----- Crash safety -----

  ghost predicate Untouched(g: Flash, f: Flash, region: Region) {
    forall a: nat :: g(region, a) == f(region, a)
  }

  /** The first four bytes read as the invalid boot tag, so the device does not boot the partition. */
  ghost predicate TagInvalid(g: Flash, region: Region) {
    forall a: nat | a < 4 :: g(region, a) == 0xFF
  }

  ghost predicate HasImage(g: Flash, region: Region, buf: bytes) {
    forall a: nat | a < |buf| :: g(region, a) == buf[a]
  }

  /** A device that restarts now either boots the old image, boots the new one, or boots neither. */
  ghost predicate Safe(g: Flash, f: Flash, region: Region, buf: bytes) {
    Untouched(g, f, region) || TagInvalid(g, region) || HasImage(g, region, buf)
  }

  /** After any number of requests of a partition download the partition is safe. */
  lemma PrefixIsSafe(t: Target, buf: bytes, f: Flash, j: nat)
    requires Faithful(buf) && !t.fpt && j <= |Plan(t, buf)|
    ensures Safe(Replay(f, Plan(t, buf)[..j]), f, TargetRegion(t), buf)
  {
    var region, g := TargetRegion(t), Replay(f, Plan(t, buf)[..j]);
    SmallPlan(t, |buf|);
    PlanLength(t, buf);
    if j == 0 {
      assert Untouched(g, f, region);
    } else if j <= Chunks(|buf|) && Invalidates(t, |buf|, 0) {
      forall a: nat | a < 4 ensures g(region, a) == 0xFF {
        LoopContents(t, buf, f, j, region, a);
      }
      assert TagInvalid(g, region);
    } else {
      assert Plan(t, buf)[..j] == Plan(t, buf);
      forall a: nat | a < |buf| ensures g(region, a) == buf[a] {
        CompletedDownload(t, buf, f, region, a);
      }
      assert HasImage(g, region, buf);
    }
  }

  /** Crash safety: at every point of every run of a partition download, including runs that a failed
      command cuts short, the partition is untouched, not bootable, or holds the new image. */
  lemma EveryStateIsSafe(t: Target, buf: bytes, efd: bool, f: Flash, ret: int, signals: seq<nat>, history: seq<Flash>)
    requires Faithful(buf) && !t.fpt && Ran(t, buf, efd, f, ret, signals, history)
    ensures forall k | 0 <= k < |history| :: Safe(history[k], f, TargetRegion(t), buf)
  {
    hide Safe, Plan, Replay;
    forall k | 0 <= k < |history| ensures Safe(history[k], f, TargetRegion(t), buf) {
      assert Reached(history[k], f, t, buf, k + 1);
      PrefixIsSafe(t, buf, f, k + 1);
      PrefixIsSafe(t, buf, f, k);
    }
  }

  /** Success means that the image is in place. */
  lemma SuccessHasImage(t: Target, buf: bytes, efd: bool, f: Flash, signals: seq<nat>, history: seq<Flash>)
    requires Faithful(buf) && Ran(t, buf, efd, f, 0, signals, history)
    ensures HasImage(history[|history| - 1], TargetRegion(t), buf)
  {
    forall a: nat | a < |buf| ensures history[|history| - 1](TargetRegion(t), a) == buf[a] {
      CompletedDownload(t, buf, f, TargetRegion(t), a);
    }
  }

  /** A flash that differs from the image in every byte. */
  function Contrary(buf: bytes): Flash {
    (region: Region, a: nat) => if a < |buf| then (buf[a] as int + 1) % 256 else 0
  }

  /** The update of the partition table never invalidates the tag: all its states are safe, for every
      initial flash, exactly when it fits one chunk or itself starts with the invalid tag. */
  lemma CrashSafetyIsExact(t: Target, buf: bytes)
    requires Faithful(buf)
    ensures (forall f: Flash, j: nat | j <= |Plan(t, buf)| ::
               Safe(Replay(f, Plan(t, buf)[..j]), f, TargetRegion(t), buf))
       <==> !t.fpt || |buf| <= CHUNK || INVALID_BOOT_TAG <= buf
  {
    hide Replay, Plan;
    if !t.fpt {
      forall f: Flash, j: nat | j <= |Plan(t, buf)|
        ensures Safe(Replay(f, Plan(t, buf)[..j]), f, TargetRegion(t), buf) {
        PrefixIsSafe(t, buf, f, j);
      }
    } else if |buf| <= CHUNK || INVALID_BOOT_TAG <= buf {
      forall f: Flash, j: nat | j <= |Plan(t, buf)|
        ensures Safe(Replay(f, Plan(t, buf)[..j]), f, TargetRegion(t), buf) {
        TaggedUpdateIsSafe(t, buf, f, j);
      }
    } else {
      UpdateIsNotSafe(t, buf);
    }
  }

  lemma TaggedUpdateIsSafe(t: Target, buf: bytes, f: Flash, j: nat)
    requires Faithful(buf) && t.fpt && (|buf| <= CHUNK || INVALID_BOOT_TAG <= buf) && j <= |Plan(t, buf)|
    ensures Safe(Replay(f, Plan(t, buf)[..j]), f, TargetRegion(t), buf)
  {
    var region, g := TargetRegion(t), Replay(f, Plan(t, buf)[..j]);
    SmallPlan(t, |buf|);
    PlanLength(t, buf);
    if j == 0 {
      assert Untouched(g, f, region);
    } else if |buf| <= CHUNK {
      forall a: nat | a < |buf| ensures g(region, a) == buf[a] {
        LoopContents(t, buf, f, j, region, a);
      }
      assert HasImage(g, region, buf);
    } else {
      forall a: nat | a < 4 ensures g(region, a) == 0xFF {
        LoopContents(t, buf, f, j, region, a);
        assert buf[a] == INVALID_BOOT_TAG[a];
      }
      assert TagInvalid(g, region);
    }
  }

  lemma UpdateIsNotSafe(t: Target, buf: bytes)
    requires Faithful(buf) && t.fpt && |buf| > CHUNK && !(INVALID_BOOT_TAG <= buf)
    ensures 1 <= |Plan(t, buf)| && !Safe(Replay(Contrary(buf), Plan(t, buf)[..1]), Contrary(buf), TargetRegion(t), buf)
  {
    var f, region := Contrary(buf), TargetRegion(t);
    SmallPlan(t, |buf|);
    LoopContents(t, buf, f, 1, region, 0);
    var g := Replay(f, Plan(t, buf)[..1]);
    assert g(region, 0) == buf[0] != f(region, 0);
    LoopContents(t, buf, f, 1, region, CHUNK);
    assert g(region, CHUNK) == f(region, CHUNK) != buf[CHUNK];
    TagIsPrefix(buf);
    var a: nat :| a < 4 && buf[a] != 0xFF;
    LoopContents(t, buf, f, 1, region, a);
    assert g(region, a) == buf[a];
  }

  lemma TagIsPrefix(buf: bytes)
    requires |buf| >= 4
    ensures (forall a: nat | a < 4 :: buf[a] == 0xFF) ==> INVALID_BOOT_TAG <= buf
  {
  }

  // ----- How far the chunk number reaches -----

  /** No request reaches beyond what 15 bits of chunk number address. */
  lemma {:induction false} BeyondReach(t: Target, buf: bytes, f: Flash, j: nat, a: nat)
    requires j <= |Plan(t, buf)| && a >= MAX_FAITHFUL
    ensures Replay(f, Plan(t, buf)[..j])(TargetRegion(t), a) == f(TargetRegion(t), a)
  {
    if j > 0 {
      BeyondReach(t, buf, f, j - 1, a);
      PlanAt(t, buf, j - 1);
      ReplayNext(f, t, buf, j - 1);
      var g, r := Replay(f, Plan(t, buf)[..j - 1]), Plan(t, buf)[j - 1];
      RequestInReach(t, buf, j - 1);
      assert Written(g, r)(TargetRegion(t), a) == ByteWritten(g, r, TargetRegion(t), a);
    }
  }

  lemma RequestInReach(t: Target, buf: bytes, k: nat)
    requires k < |Plan(t, buf)|
    ensures Plan(t, buf)[k].chunk < 0x8000 && |Plan(t, buf)[k].data| <= CHUNK
  {
    PlanAt(t, buf, k);
  }

  // Beyond 2^30 bytes the image never gets complete, and chunks whose number is a multiple of 0x8000 come to
  // lie over the start of the target.

  /** The chunk of iteration `k` begins with the invalid tag, as far as it is that long. */
  predicate TagInChunk(buf: bytes, k: nat) {
    TagFrom(buf, k * CHUNK)
  }

  predicate TagFrom(data: bytes, from: nat) {
    forall a | from <= a < from + 4 && a < |data| :: data[a] == 0xFF
  }

  /** Everything that is written to the start of the target begins with the invalid tag: the image itself, and
      every chunk that wraps around. */
  predicate TagAtWraps(t: Target, buf: bytes) {
    TagInChunk(buf, 0) &&
    forall k | 0 <= k < Chunks(|buf|) && k % 0x8000 == 0 && !Invalidates(t, |buf|, k) :: TagInChunk(buf, k)
  }

  /** The request writes no other byte than 0xFF to the first four. */
  predicate TagInRequest(r: Request) {
    r.chunk == 0 ==> TagFrom(r.data, 0)
  }

  lemma ModMod(k: nat)
    ensures k % 0x1_0000 % 0x8000 == k % 0x8000
  {
    var q, r := k / 0x1_0000, k % 0x1_0000;
    assert k == 0x8000 * (2 * q + r / 0x8000) + r % 0x8000;
  }

  lemma SliceTag(buf: bytes, from: nat, to: nat)
    requires from <= to <= |buf| && (to == |buf| || from + 4 <= to)
    ensures TagFrom(buf[from..to], 0) <==> TagFrom(buf, from)
  {
    var data := buf[from..to];
    if TagFrom(data, 0) {
      forall a | from <= a < from + 4 && a < |buf| ensures buf[a] == 0xFF {
        assert data[a - from] == 0xFF;
      }
    }
    if TagFrom(buf, from) {
      assert forall a | 0 <= a < 4 && a < |data| :: data[a] == buf[from + a];
    }
  }

  lemma LoopTag(t: Target, buf: bytes, k: nat)
    requires k < Chunks(|buf|)
    ensures TagInRequest(StepRequest(t, buf, k))
       <==> (k % 0x8000 == 0 && !Invalidates(t, |buf|, k) ==> TagInChunk(buf, k))
  {
    hide TagFrom, Chunks, NumChunks;
    ModMod(k);
    InvalidTag();
    if !Invalidates(t, |buf|, k) && k % 0x8000 == 0 {
      ChunkProgress(|buf|, k);
      SliceTag(buf, k * CHUNK, ChunkEnd(|buf|, k));
    }
  }

  lemma InvalidTag()
    ensures TagFrom(INVALID_BOOT_TAG, 0)
  {
  }

  /** The condition on the image, said of the requests. */
  lemma TagInRequests(t: Target, buf: bytes)
    requires |buf| > MAX_FAITHFUL
    ensures TagAtWraps(t, buf) <==> forall k | 0 <= k < |Plan(t, buf)| :: TagInRequest(Plan(t, buf)[k])
  {
    hide TagInRequest, TagInChunk, Invalidates, Chunks, StepRequest;
    var n, plan := Chunks(|buf|), Plan(t, buf);
    assert 0 < n <= |plan| <= n + 1;
    forall k | 0 <= k < n ensures plan[k] == StepRequest(t, buf, k) {
      PlanAt(t, buf, k);
    }
    forall k | 0 <= k < n
      ensures TagInRequest(plan[k]) <==> (k % 0x8000 == 0 && !Invalidates(t, |buf|, k) ==> TagInChunk(buf, k))
    {
      LoopTag(t, buf, k);
    }
    LastTag(t, buf);
  }

  /** The first chunk is written either by the first request or by the last. */
  lemma LastTag(t: Target, buf: bytes)
    requires |buf| > MAX_FAITHFUL
    ensures |Plan(t, buf)| == Chunks(|buf|) + (if Invalidates(t, |buf|, 0) then 1 else 0) && Chunks(|buf|) > 0
    ensures Invalidates(t, |buf|, 0) ==> (TagInRequest(Plan(t, buf)[Chunks(|buf|)]) <==> TagInChunk(buf, 0))
  {
    if Invalidates(t, |buf|, 0) {
      SliceTag(buf, 0, CHUNK);
      assert Plan(t, buf)[Chunks(|buf|)] == Request(TargetRegion(t), 0, true, buf[0..CHUNK]);
    }
  }

  lemma {:induction false} TagStays(t: Target, buf: bytes, f: Flash, j: nat)
    requires |buf| > MAX_FAITHFUL && TagAtWraps(t, buf) && 0 < j <= |Plan(t, buf)|
    ensures TagInvalid(Replay(f, Plan(t, buf)[..j]), TargetRegion(t))
  {
    hide TagAtWraps, Plan, Replay;
    var region, r, g := TargetRegion(t), Plan(t, buf)[j - 1], Replay(f, Plan(t, buf)[..j - 1]);
    TagInRequests(t, buf);
    assert TagInRequest(r);
    RequestFits(t, buf, j - 1);
    PlanAt(t, buf, j - 1);
    ReplayNext(f, t, buf, j - 1);
    if j > 1 {
      TagStays(t, buf, f, j - 1);
    }
    forall a: nat | a < 4 ensures Written(g, r)(region, a) == 0xFF {
      assert Written(g, r)(region, a) == ByteWritten(g, r, region, a);
    }
  }

  lemma RequestFits(t: Target, buf: bytes, k: nat)
    requires |buf| > MAX_FAITHFUL && k < |Plan(t, buf)|
    ensures var r := Plan(t, buf)[k]; r.region == TargetRegion(t) && (k == 0 ==> r.chunk == 0 && |r.data| >= 4)
  {
    PlanAt(t, buf, k);
  }

  /** A flash that differs from `x` at `a`, and from the image everywhere else. */
  function ContraryAt(buf: bytes, a: nat, x: byte): Flash {
    (region: Region, b: nat) =>
      if b == a then (x as int + 1) % 256 else if b < |buf| then (buf[b] as int + 1) % 256 else 0
  }

  /** A request that writes something else to the first four bytes leaves some flash unsafe. */
  lemma OtherTagIsNotSafe(t: Target, buf: bytes, k: nat) returns (f: Flash)
    requires |buf| > MAX_FAITHFUL && k < |Plan(t, buf)| && !TagInRequest(Plan(t, buf)[k])
    ensures !Safe(Replay(f, Plan(t, buf)[..k + 1]), f, TargetRegion(t), buf)
  {
    hide Plan, Replay;
    var region, r := TargetRegion(t), Plan(t, buf)[k];
    var a: nat :| a < 4 && a < |r.data| && r.data[a] != 0xFF;
    f := ContraryAt(buf, a, r.data[a]);
    var g := Replay(f, Plan(t, buf)[..k]);
    RequestFits(t, buf, k);
    PlanAt(t, buf, k);
    ReplayNext(f, t, buf, k);
    BeyondReach(t, buf, f, k + 1, MAX_FAITHFUL);
    assert Written(g, r)(region, a) == ByteWritten(g, r, region, a) == r.data[a];
    assert f(region, a) != r.data[a] && f(region, MAX_FAITHFUL) != buf[MAX_FAITHFUL];
  }

  /** Beyond 2^30 bytes: all states of a download are safe, for every initial flash, exactly when the image and
      every chunk that wraps around to the start of the target begin with the invalid tag. */
  lemma CrashSafetyBeyond(t: Target, buf: bytes)
    requires |buf| > MAX_FAITHFUL
    ensures (forall f: Flash, j: nat | j <= |Plan(t, buf)| ::
               Safe(Replay(f, Plan(t, buf)[..j]), f, TargetRegion(t), buf))
       <==> TagAtWraps(t, buf)
  {
    hide Replay, Plan, TagAtWraps, TagInRequest, Safe;
    TagInRequests(t, buf);
    if TagAtWraps(t, buf) {
      forall f: Flash, j: nat | j <= |Plan(t, buf)|
        ensures Safe(Replay(f, Plan(t, buf)[..j]), f, TargetRegion(t), buf)
      {
        TaggedIsSafe(t, buf, f, j);
      }
    } else {
      var k :| 0 <= k < |Plan(t, buf)| && !TagInRequest(Plan(t, buf)[k]);
      var f := OtherTagIsNotSafe(t, buf, k);
    }
  }

  lemma TaggedIsSafe(t: Target, buf: bytes, f: Flash, j: nat)
    requires |buf| > MAX_FAITHFUL && TagAtWraps(t, buf) && j <= |Plan(t, buf)|
    ensures Safe(Replay(f, Plan(t, buf)[..j]), f, TargetRegion(t), buf)
  {
    hide TagAtWraps, Plan;
    if j == 0 {
      assert Plan(t, buf)[..0] == [];
      assert Untouched(Replay(f, Plan(t, buf)[..j]), f, TargetRegion(t));
    } else {
      TagStays(t, buf, f, j);
    }
  }

  /** An uninterrupted download stores the image, whatever the flash held before, exactly when the
      image has at most 2^30 bytes. */
  lemma ImageIsStoredIff(t: Target, buf: bytes)
    requires buf != []
    ensures (forall f: Flash :: HasImage(Replay(f, Plan(t, buf)), TargetRegion(t), buf)) <==> |buf| <= MAX_FAITHFUL
  {
    hide Replay, Plan;
    if |buf| <= MAX_FAITHFUL {
      forall f: Flash ensures HasImage(Replay(f, Plan(t, buf)), TargetRegion(t), buf) {
        forall a: nat | a < |buf| ensures Replay(f, Plan(t, buf))(TargetRegion(t), a) == buf[a] {
          CompletedDownload(t, buf, f, TargetRegion(t), a);
        }
      }
    } else {
      var f, p := Contrary(buf), Plan(t, buf);
      assert p[..|p|] == p;
      BeyondReach(t, buf, f, |p|, MAX_FAITHFUL);
      assert Replay(f, p)(TargetRegion(t), MAX_FAITHFUL) != buf[MAX_FAITHFUL];
    }
  }

  /** No two chunks of an image get the same number, after packing and unpacking, exactly up to 2^30
      bytes. */
  lemma ChunkNumbersDistinctIff(boot: uint8, part: uint32, last: bool, size: nat)
    requires 0 < size
    ensures (forall i, j | 0 <= i < j < Chunks(size) ::
               PdiChunk(MkPdiFlags(boot, part, i % 0x1_0000, last)) !=
               PdiChunk(MkPdiFlags(boot, part, j % 0x1_0000, last)))
       <==> size <= MAX_FAITHFUL
  {
    if size <= MAX_FAITHFUL {
      assert Chunks(size) <= 0x8000;
      forall i, j | 0 <= i < j < Chunks(size)
        ensures PdiChunk(MkPdiFlags(boot, part, i % 0x1_0000, last))
             != PdiChunk(MkPdiFlags(boot, part, j % 0x1_0000, last))
      {
        FlagsUnpack(boot, part, i % 0x1_0000, last);
        FlagsUnpack(boot, part, j % 0x1_0000, last);
      }
    } else {
      assert Chunks(size) > 0x8000;
      FlagsUnpack(boot, part, 0 % 0x1_0000, last);
      FlagsUnpack(boot, part, 0x8000 % 0x1_0000, last);
    }
  }

  /** The last-chunk flag is on the final request only. */
  lemma LastFlagIsFinal(t: Target, buf: bytes, k: nat)
    requires Faithful(buf) && k < |Plan(t, buf)|
    ensures Plan(t, buf)[k].last <==> k == |Plan(t, buf)| - 1
  {
    SmallPlan(t, |buf|);
    PlanLength(t, buf);
    PlanAt(t, buf, k);
  }

  // ----- Progress -----

  lemma PlanCovers(t: Target, buf: bytes)
    ensures Chunks(|buf|) <= |Plan(t, buf)|
  {
  }

  lemma StepSize(t: Target, buf: bytes, k: nat)
    requires k < Chunks(|buf|) && !Invalidates(t, |buf|, k)
    ensures k * CHUNK <= |buf| && k < |Plan(t, buf)|
    ensures |Plan(t, buf)[k].data| == ChunkEnd(|buf|, k) - k * CHUNK
  {
    hide Invalidates, NumChunks;
    PlanAt(t, buf, k);
  }

  /** One iteration of the loop adds the size of its chunk, unless it invalidates the tag. */
  lemma StepProgress(t: Target, buf: bytes, k: nat)
    requires k < Chunks(|buf|)
    ensures k < |Plan(t, buf)| && k * CHUNK <= |buf|
    ensures var p, p' := Progress(t, buf, k), Progress(t, buf, k + 1);
            if Invalidates(t, |buf|, k) then p' == p
            else |p'| == |p| + 1 && Sum(p') == Sum(p) + (ChunkEnd(|buf|, k) - k * CHUNK)
  {
    hide Progress, Plan, Sum, Invalidates, NumChunks;
    PlanCovers(t, buf);
    ProgressNext(t, buf, k);
    if !Invalidates(t, |buf|, k) {
      StepSize(t, buf, k);
      SumAppend(Progress(t, buf, k), |Plan(t, buf)[k].data|);
    }
  }

  lemma {:induction false} LoopProgress(t: Target, buf: bytes, j: nat, skipped: nat)
    requires Faithful(buf) && 0 < j <= Chunks(|buf|)
    requires skipped == if Invalidates(t, |buf|, 0) then 1 else 0
    ensures j <= |Plan(t, buf)| && |Progress(t, buf, j)| == j - skipped
    ensures Sum(Progress(t, buf, j)) == (if j == Chunks(|buf|) then |buf| else j * CHUNK) - skipped * CHUNK
  {
    SmallPlan(t, |buf|);
    hide Plan, Progress, Invalidates, NumChunks, Chunks, StepRequest, Sum, ChunkEnd;
    ProgressStarts(t, buf);
    StepProgress(t, buf, j - 1);
    ChunkProgress(|buf|, j - 1);
    if j > 1 {
      LoopProgress(t, buf, j - 1, skipped);
    } else {
      PlanLength(t, buf);
    }
  }

  lemma ProgressStarts(t: Target, buf: bytes)
    ensures Progress(t, buf, 0) == [] && Sum([]) == 0
  {
  }

  lemma SumAppend(s: seq<nat>, x: nat)
    ensures Sum(s + [x]) == Sum(s) + x
  {
    assert (s + [x])[..|s|] == s;
  }

  /** A download that succeeds raises one signal for each chunk, and byte counts that sum to the size. */
  lemma ProgressIsComplete(t: Target, buf: bytes)
    requires Faithful(buf)
    ensures var p := Progress(t, buf, |Plan(t, buf)|);
            |p| == Chunks(|buf|) && Sum(p) == |buf|
  {
    var n := Chunks(|buf|);
    LoopProgress(t, buf, n, if Invalidates(t, |buf|, 0) then 1 else 0);
    PlanLength(t, buf);
    if Invalidates(t, |buf|, 0) {
      ProgressNext(t, buf, n);
      SumAppend(Progress(t, buf, n), CHUNK);
    }
  }
}
