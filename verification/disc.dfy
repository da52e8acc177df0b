/** The replacement .Sony disc driver of src/disc.c: the paravirtual hook the
    68000 driver stub calls, and the Open/Prime/Control/Status routines that
    work on parameter blocks in guest memory.

    The Mac OS constants (error codes, parameter-block, DCE and drive status
    record offsets) come from b2_macos_util.h, which is not part of this
    model: they are the fields of an `Abi` record, constrained only by what the
    driver relies on.  The drive queue that FindFreeDriveNumber walks in guest
    memory is given as the sequence of drive numbers it holds. */
module Disc {
  import opened Maybe
  import opened MachHw

  const DISC_NUM_DRIVES: nat := 2
  const SECTOR: nat := 512
  /** Low-memory global DskErr */
  const DSK_ERR: nat := 0x142
  /** Low-memory global SonyVars */
  const SONY_VARS: nat := 0x134
  const SONY_VARS_MAGIC: bv32 := 0xdead_beef
  /** The three longs of the low-memory TagBuf */
  const TAG_BUF: nat := 0x2fc

  datatype Abi = Abi(
    noErr: int, paramErr: int, nsDrvErr: int, offLinErr: int, wPrErr: int,
    controlErr: int, statusErr: int,
    /** drive type stored in dsQType */
    sony: bv16,
    /** low byte of ioTrap for a read */
    aRdCmd: Byte,
    ioTrap: nat, ioVRefNum: nat, ioBuffer: nat, ioReqCount: nat, ioActCount: nat,
    csCode: nat, csParam: nat,
    dCtlPosition: nat, dCtlQFlags: nat,
    dsQType: nat, dsInstalled: nat, dsSides: nat, dsTwoSideFmt: nat,
    dsMFMDrive: nat, dsMFMDisk: nat, dsDiskInPlace: nat, dsWriteProt: nat)
  {
    /** noErr is 0; the other codes are distinct negative 16-bit values (and
        not the -1 of KillIO); the disk-in-place and write-protect bytes of
        the drive status record are different fields. */
    predicate Valid() {
      && noErr == 0
      && -0x8000 <= paramErr < -1 && -0x8000 <= nsDrvErr < -1 && -0x8000 <= offLinErr < -1
      && -0x8000 <= wPrErr < -1 && -0x8000 <= controlErr < -1 && -0x8000 <= statusErr < -1
      && paramErr != nsDrvErr && paramErr != offLinErr && paramErr != wPrErr
      && nsDrvErr != offLinErr && nsDrvErr != wPrErr && offLinErr != wPrErr
      && controlErr !in {paramErr, nsDrvErr, offLinErr, wPrErr}
      && statusErr !in {paramErr, nsDrvErr, offLinErr, wPrErr, controlErr}
      && dsDiskInPlace != dsWriteProt
    }
  }

  /** The constants disc.c is built with (Mac OS error codes and the drive
      status record of Inside Macintosh: writeProt at 2, diskInPlace at 3,
      installed at 4, sides at 5, qType at 10) meet `Valid`, whatever the
      parameter-block and DCE offsets are. */
  lemma MacOsAbiValid(abi: Abi)
    requires abi.noErr == 0 && abi.paramErr == -50 && abi.nsDrvErr == -56 && abi.offLinErr == -65
    requires abi.wPrErr == -44 && abi.controlErr == -17 && abi.statusErr == -18
    requires abi.dsWriteProt == 2 && abi.dsDiskInPlace == 3 && abi.dsInstalled == 4 && abi.dsSides == 5
    requires abi.dsQType == 10 && abi.dsTwoSideFmt == 18 && abi.dsMFMDrive == 22 && abi.dsMFMDisk == 23
    ensures abi.Valid()
  {
  }

  // ---------------------------------------------------------------------------
  // Drives

  /** A disc callback: absent, failing (negative return) or copying against
      the drive's contents. */
  datatype Op = Missing | Fails | Copies

  /** Where a drive's sectors come from: a flat host buffer (`data` set) or
      the op_read/op_write callbacks. */
  datatype Backing = Flat | Callbacks(read: Op, write: Op)

  /** disc_descr_t: the host's description of one disc; |image| is its size. */
  datatype DiscDescr = DiscDescr(image: seq<Byte>, backing: Backing, readOnly: bool)

  /** sony_drinfo_t; `image` holds the disc contents and its length is `size`. */
  datatype Drive = Drive(num: int, image: seq<Byte>, backing: Backing, readOnly: bool,
                         status: nat, toBeMounted: bool)

  type Drives = s: seq<Drive> | |s| == DISC_NUM_DRIVES
    witness [NoDrive, NoDrive]

  /** A zero-initialised drive slot: number 0, no data path. */
  const NoDrive: Drive := Drive(0, [], Callbacks(Missing, Missing), false, 0, false)

  /** SonyInit: the first descriptor fills drive slot 0; slot 1 stays zeroed. */
  function SonyInit(discs: seq<DiscDescr>): (r: Drives)
    requires |discs| == DISC_NUM_DRIVES
    ensures r[0].image == discs[0].image && r[0].backing == discs[0].backing
    ensures r[0].readOnly == discs[0].readOnly && r[0].toBeMounted
    ensures r[0].num == 0 && r[0].status == 0
    ensures r[1] == NoDrive
  {
    [Drive(0, discs[0].image, discs[0].backing, discs[0].readOnly, 0, true), NoDrive]
  }

  /** get_drive_info: the index of the first drive slot with number `num`. */
  function GetDriveInfo(drives: Drives, num: int): (r: Option<nat>)
    ensures r.Some? ==> r.value < DISC_NUM_DRIVES && drives[r.value].num == num
    ensures r.Some? ==> forall j :: 0 <= j < r.value ==> drives[j].num != num
    ensures r.None? <==> forall j :: 0 <= j < DISC_NUM_DRIVES ==> drives[j].num != num
  {
    if drives[0].num == num then Some(0)
    else if drives[1].num == num then Some(1)
    else None
  }

  /** Right after SonyInit drive 0 answers to number 0. */
  lemma InitFindsDriveZero(discs: seq<DiscDescr>)
    requires |discs| == DISC_NUM_DRIVES
    ensures GetDriveInfo(SonyInit(discs), 0) == Some(0)
  {
  }

  // ---------------------------------------------------------------------------
  // DskErr and the drive queue

  /** The int16_t code as the 16-bit word stored in guest memory. */
  function Word16(code: int): bv16 {
    (code % 0x1_0000) as bv16
  }

  /** The int16_t code widened to the 32-bit D0 register (sign-extended). */
  function Word32(code: int): bv32 {
    (code % 0x1_0000_0000) as bv32
  }

  /** set_dsk_err: store the code in the DskErr word. */
  function SetDskErr(ram: Ram, code: int): (r: Option<Ram>)
    ensures r.Some? <==> RamWrite16(ram, DSK_ERR, Word16(code)).Some?
    ensures r.Some? ==> RamRead16(r.value, DSK_ERR) == Some(Word16(code))
    ensures r.Some? ==> r.value == LogicalWrite(ram, DSK_ERR, Be16(Word16(code)))
  {
    var w := RamWrite16(ram, DSK_ERR, Word16(code));
    if w.Some? then RamWriteRead16(ram, DSK_ERR, Word16(code)); w else w
  }

  /** set_dsk_err touches nothing but the DskErr word. */
  lemma SetDskErrFrame32(ram: Ram, code: int, x: nat)
    requires x + 4 <= DSK_ERR || DSK_ERR + 2 <= x
    ensures var r := SetDskErr(ram, code);
            r.Some? ==> RamRead32(r.value, x) == RamRead32(ram, x)
  {
    if SetDskErr(ram, code).Some? {
      RamRead32Frame(ram, DSK_ERR, Be16(Word16(code)), x);
    }
  }

  lemma SetDskErrFrame16(ram: Ram, code: int, x: nat)
    requires x + 2 <= DSK_ERR || DSK_ERR + 2 <= x
    ensures var r := SetDskErr(ram, code);
            r.Some? ==> RamRead16(r.value, x) == RamRead16(ram, x)
  {
    if SetDskErr(ram, code).Some? {
      RamRead16Frame(ram, DSK_ERR, Be16(Word16(code)), x);
    }
  }

  lemma SetDskErrFrame8(ram: Ram, code: int, x: nat)
    requires x + 1 <= DSK_ERR || DSK_ERR + 2 <= x
    ensures var r := SetDskErr(ram, code);
            r.Some? ==> RamRead8(r.value, x) == RamRead8(ram, x)
  {
    if SetDskErr(ram, code).Some? {
      RamRead8Frame(ram, DSK_ERR, Be16(Word16(code)), x);
    }
  }

  /** is_drive_number_free */
  predicate IsDriveNumberFree(queue: seq<int>, num: int) {
    num !in queue
  }

  /** The largest drive number in the queue. */
  function MaxNumber(queue: seq<int>): (r: int)
    requires |queue| > 0
    ensures r in queue && forall i :: 0 <= i < |queue| ==> queue[i] <= r
  {
    if |queue| == 1 then queue[0]
    else
      var m := MaxNumber(queue[1..]);
      assert forall i :: 1 <= i < |queue| ==> queue[i] == queue[1..][i - 1];
      if queue[0] >= m then queue[0] else m
  }

  /** FindFreeDriveNumber: the smallest number from `num` on that no element
      of the drive queue uses. */
  function FindFreeDriveNumber(queue: seq<int>, num: int): (r: int)
    ensures r >= num && IsDriveNumberFree(queue, r)
    ensures forall m :: num <= m < r ==> !IsDriveNumberFree(queue, m)
    decreases if |queue| == 0 then 0 else MaxNumber(queue) + 1 - num
  {
    if IsDriveNumberFree(queue, num) then num
    else FindFreeDriveNumber(queue, num + 1)
  }

  // ---------------------------------------------------------------------------
  // do_read / do_write

  /** The outcome of a transfer: guest RAM, the drive's contents, and the code
      (0 on success). */
  datatype Io = Io(ram: Ram, image: seq<Byte>, code: int)

  function ReadOp(d: Drive): Op {
    match d.backing
    case Flat => Copies
    case Callbacks(r, _) => r
  }

  function WriteOp(d: Drive): Op {
    match d.backing
    case Flat => Copies
    case Callbacks(_, w) => w
  }

  /** The code do_read/do_write report for an operation that does not copy:
      paramErr for a failing callback, offLinErr for no data path at all. */
  function FailureCode(abi: Abi, op: Op): int {
    if op == Fails then abi.paramErr else abi.offLinErr
  }

  /** A transfer that stops with `code`, recorded in DskErr. */
  function Fail(ram: Ram, image: seq<Byte>, code: int): (r: Option<Io>)
    ensures r.Some? ==> r.value.code == code && r.value.image == image
    ensures r.Some? ==> RamRead16(r.value.ram, DSK_ERR) == Some(Word16(code))
    ensures r.Some? <==> SetDskErr(ram, code).Some?
  {
    var w :- SetDskErr(ram, code);
    Some(Io(w, image, code))
  }

  /** The bytes a read of the drive delivers, or the code it fails with. */
  datatype Fetched = Got(bytes: seq<Byte>) | Failed(code: int)

  function Fetch(abi: Abi, d: Drive, position: nat, length: nat): (r: Option<Fetched>)
    ensures r.Some? && r.value.Got? ==>
              ReadOp(d) == Copies && position + length <= |d.image| && r.value.bytes == d.image[position..position + length]
    ensures r.Some? && r.value.Failed? ==> ReadOp(d) != Copies && r.value.code == FailureCode(abi, ReadOp(d))
    ensures r.None? <==> ReadOp(d) == Copies && position + length > |d.image|
  {
    match ReadOp(d)
    case Copies =>
      if position + length <= |d.image| then Some(Got(d.image[position..position + length])) else None
    case _ => Some(Failed(FailureCode(abi, ReadOp(d))))
  }

  /** do_read into host memory at `p`. */
  function DoRead(abi: Abi, d: Drive, ram: Ram, p: HostPtr, length: nat, position: nat): (r: Option<Io>)
    ensures r.Some? ==> r.value.image == d.image
    ensures r.Some? && r.value.code != 0 ==> RamRead16(r.value.ram, DSK_ERR) == Some(Word16(r.value.code))
    ensures ReadOp(d) != Copies ==> r == Fail(ram, d.image, FailureCode(abi, ReadOp(d)))
    ensures ReadOp(d) == Copies && position + length <= |d.image| ==>
              r == CopiedIn(ram, p, d.image[position..position + length], d.image)
    ensures r.Some? ==> r.value.code == 0 || r.value.code == FailureCode(abi, ReadOp(d))
  {
    var f :- Fetch(abi, d, position, length);
    match f
    case Got(b) => CopiedIn(ram, p, b, d.image)
    case Failed(c) => Fail(ram, d.image, c)
  }

  /** do_write from `src`, the bytes at the source buffer (`None` when reading
      them would leave their host buffer); only a copying path reads them. */
  function DoWrite(abi: Abi, d: Drive, ram: Ram, src: Option<seq<Byte>>, position: nat): (r: Option<Io>)
    ensures r.Some? && r.value.code != 0 ==> RamRead16(r.value.ram, DSK_ERR) == Some(Word16(r.value.code))
    ensures WriteOp(d) != Copies ==> r == Fail(ram, d.image, FailureCode(abi, WriteOp(d)))
    ensures WriteOp(d) == Copies ==>
              (r.Some? <==> src.Some? && position + |src.value| <= |d.image|)
    ensures WriteOp(d) == Copies && r.Some? ==>
              r.value == Io(ram, Overwrite(d.image, position, src.value), 0)
    ensures r.Some? ==> r.value.code == 0 || r.value.code == FailureCode(abi, WriteOp(d))
  {
    match WriteOp(d)
    case Copies =>
      var b :- src;
      if position + |b| <= |d.image| then Some(Io(ram, Overwrite(d.image, position, b), 0)) else None
    case _ => Fail(ram, d.image, FailureCode(abi, WriteOp(d)))
  }

  // ---------------------------------------------------------------------------
  // The split transfer (RAM_SIZE_HI > 0)

  /** One copy of a transfer: `count` bytes between guest address `addr` and
      disc offset `position`. */
  datatype Run = Run(addr: nat, position: nat, count: nat)

  /** The three copies of a transfer that starts below the split and reaches
      it: whole sectors below, at most one sector across (of which `below`
      bytes lie under the split), whole sectors above. */
  datatype Plan = Plan(before: Run, below: nat, across: Run, after: Run)

  /** `r2` starts where `r1` ends, both in guest RAM and on the disc. */
  predicate Adjacent(r1: Run, r2: Run) {
    r2.addr == r1.addr + r1.count && r2.position == r1.position + r1.count
  }

  /** The bytes of the disc image a run covers. */
  function DiscBytes(image: seq<Byte>, r: Run): seq<Byte>
    requires r.position + r.count <= |image|
  {
    image[r.position..r.position + r.count]
  }

  /** The bytes of guest RAM a run covers. */
  function GuestBytes(ram: Ram, r: Run): seq<Byte>
    requires r.addr + r.count <= ram.Size()
  {
    ram.bytes[r.addr..r.addr + r.count]
  }

  /** The whole transfer a plan is made of. */
  function Whole(p: Plan): Run {
    Run(p.before.addr, p.before.position, p.before.count + p.across.count + p.after.count)
  }

  /** A plan whose runs follow each other, whose straddling sector (if any)
      has its first `below` bytes under the split `lo`, and whose first run
      ends exactly there when there is none. */
  predicate PlanAt(p: Plan, lo: nat) {
    && Adjacent(p.before, p.across) && Adjacent(p.across, p.after)
    && p.below < SECTOR
    && p.across.count == (if p.below > 0 then SECTOR else 0)
    && p.before.addr + p.before.count + p.below == lo
  }

  /** The plan SonyPrime_read_special and SonyPrime_write_special compute for
      `length` bytes at guest address `addr` and disc offset `position`. */
  function SplitPlan(lo: nat, addr: nat, length: nat, position: nat): (p: Plan)
    requires addr < lo <= addr + length
    requires length % SECTOR == 0
    ensures PlanAt(p, lo)
    ensures Whole(p) == Run(addr, position, length)
    ensures p.before.count % SECTOR == 0 && p.after.count % SECTOR == 0
    ensures p.before.count > 0 || p.below > 0
  {
    var bytesBelow := lo - addr;
    var secsBefore := bytesBelow / SECTOR;
    var below := bytesBelow % SECTOR;
    var across := if below != 0 then 1 else 0;
    SplitNoUnderflow(bytesBelow, length);
    var secsAfter := length / SECTOR - secsBefore - across;
    var b, x := secsBefore * SECTOR, across * SECTOR;
    Plan(Run(addr, position, b), below, Run(addr + b, position + b, x),
         Run(addr + b + x, position + b + x, secsAfter * SECTOR))
  }

  /** The unsigned subtraction `total_sectors - secs_before - across` does not
      wrap: the bytes below the split are at most the whole transfer. */
  lemma {:induction false} SplitNoUnderflow(bytesBelow: nat, length: nat)
    requires 0 < bytesBelow <= length && length % SECTOR == 0
    ensures bytesBelow / SECTOR + (if bytesBelow % SECTOR != 0 then 1 else 0) <= length / SECTOR
  {
    var q := bytesBelow / SECTOR;
    var t := length / SECTOR;
    assert bytesBelow == q * SECTOR + bytesBelow % SECTOR;
    assert length == t * SECTOR;
    if bytesBelow % SECTOR != 0 {
      assert q * SECTOR < t * SECTOR;
      assert q < t;
    } else {
      assert q * SECTOR <= t * SECTOR;
    }
  }

  /** Mac2HostAddr: the host location of a guest address, top byte ignored. */
  function Mac2Host(ram: Ram, x: nat): HostPtr {
    RamGetBase(ram, x % 0x100_0000)
  }

  /** Twelve zero bytes: TagBuf cleared. */
  const ZERO_TAGS: seq<Byte> := [0, 0, 0, 0, 0, 0, 0, 0, 0, 0, 0, 0]

  /** Clear TagBuf: three zero longs from 0x2fc. */
  function ClearTagBuf(ram: Ram): (r: Option<Ram>)
    ensures r.Some? ==> TAG_BUF + 12 <= ram.Size() && r.value == LogicalWrite(ram, TAG_BUF, ZERO_TAGS)
  {
    var w1 :- RamWrite32(ram, 0x2fc, 0);
    var w2 :- RamWrite32(w1, 0x300, 0);
    var w3 :- RamWrite32(w2, 0x304, 0);
    ZeroLongsAreTagBuf(ram);
    Some(w3)
  }

  /** A read that completed: TagBuf cleared, code 0. */
  function TagsCleared(ram: Ram, image: seq<Byte>): (r: Option<Io>)
    ensures r.Some? <==> ClearTagBuf(ram).Some?
    ensures r.Some? ==> r.value == Io(ClearTagBuf(ram).value, image, 0)
  {
    var t :- ClearTagBuf(ram);
    Some(Io(t, image, 0))
  }

  /** A copy into host memory at `p` that completed with code 0. */
  function CopiedIn(ram: Ram, p: HostPtr, b: seq<Byte>, image: seq<Byte>): (r: Option<Io>)
    ensures r.Some? <==> Fits(ram, p, |b|)
    ensures r.Some? ==> r.value == Io(HostWrite(ram, p, b).value, image, 0)
  {
    var w :- HostWrite(ram, p, b);
    Some(Io(w, image, 0))
  }

  lemma ZeroLongsAreTagBuf(ram: Ram)
    requires TAG_BUF + 12 <= ram.Size()
    ensures LogicalWrite(LogicalWrite(LogicalWrite(ram, 0x2fc, Be32(0)), 0x300, Be32(0)), 0x304, Be32(0))
            == LogicalWrite(ram, TAG_BUF, ZERO_TAGS)
  {
    Be32Zero();
    LogicalWriteAdjacent(ram, 0x2fc, [0, 0, 0, 0], [0, 0, 0, 0]);
    LogicalWriteAdjacent(ram, 0x2fc, [0, 0, 0, 0, 0, 0, 0, 0], [0, 0, 0, 0]);
  }

  /** TagBuf can be cleared when it lies in the low host buffer. */
  lemma ClearTagBufSucceeds(ram: Ram)
    requires TAG_BUF + 12 <= ram.loSize
    ensures ClearTagBuf(ram).Some?
  {
    var w1 := RamWrite32(ram, 0x2fc, 0).value;
    var w2 := RamWrite32(w1, 0x300, 0).value;
    assert RamWrite32(w2, 0x304, 0).Some?;
  }

  /** Case 2 of a split read: the straddling sector is read into sectorbuff,
      its first `below` bytes copied under the split, the rest above it. */
  function ReadStraddle(abi: Abi, d: Drive, ram: Ram, dest: nat, below: nat, boffs: nat): (r: Option<Io>)
    requires below < SECTOR
    ensures r.Some? ==> r.value.image == d.image
    ensures r.Some? && r.value.code != 0 ==> RamRead16(r.value.ram, DSK_ERR) == Some(Word16(r.value.code))
    ensures ReadOp(d) != Copies ==> r == Fail(ram, d.image, FailureCode(abi, ReadOp(d)))
    ensures r.Some? ==> r.value.code == 0 || r.value.code == FailureCode(abi, ReadOp(d))
  {
    var f :- Fetch(abi, d, boffs, SECTOR);
    match f
    case Failed(c) => Fail(ram, d.image, c)
    case Got(sector) =>
      var w :- SplitCopyIn(ram, dest, below, sector);
      Some(Io(w, d.image, 0))
  }

  /** The two memcpys out of sectorbuff: `below` bytes at `dest`, the rest at
      `dest + below`. */
  function SplitCopyIn(ram: Ram, dest: nat, below: nat, sector: seq<Byte>): Option<Ram>
    requires below <= |sector|
  {
    match CopyIn(ram, dest, sector[..below])
    case None => None
    case Some(w1) => CopyIn(w1, dest + below, sector[below..])
  }

  /** memcpy to guest address `a` through Mac2HostAddr */
  function CopyIn(ram: Ram, a: nat, data: seq<Byte>): Option<Ram> {
    HostWrite(ram, Mac2Host(ram, a), data)
  }

  /** The two memcpys into sectorbuff. */
  function SplitCopyOut(ram: Ram, dest: nat, below: nat): (r: Option<seq<Byte>>)
    requires below <= SECTOR
  {
    var part1 :- HostRead(ram, Mac2Host(ram, dest), below);
    var part2 :- HostRead(ram, Mac2Host(ram, dest + below), SECTOR - below);
    Some(part1 + part2)
  }

  /** Cases 1 and 3 of a split read: the run's whole sectors (none when its
      count is 0) read into guest RAM. */
  function ReadRun(abi: Abi, d: Drive, ram: Ram, r: Run): Option<Io> {
    if r.count > 0 then DoRead(abi, d, ram, Mac2Host(ram, r.addr), r.count, r.position)
    else Some(Io(ram, d.image, 0))
  }

  /** Case 2 of a split read, when a sector straddles the split (`below` > 0). */
  function ReadAcross(abi: Abi, d: Drive, ram: Ram, r: Run, below: nat): Option<Io>
    requires below < SECTOR
  {
    if below > 0 then ReadStraddle(abi, d, ram, r.addr, below, r.position)
    else Some(Io(ram, d.image, 0))
  }

  /** The three cases of a split read in order; the first that reports an
      error ends it, and a complete read clears TagBuf. */
  function ReadPlan(abi: Abi, d: Drive, ram: Ram, p: Plan): (r: Option<Io>)
    requires p.below < SECTOR
    ensures r.Some? ==> r.value.image == d.image
    ensures r.Some? && r.value.code != 0 ==> RamRead16(r.value.ram, DSK_ERR) == Some(Word16(r.value.code))
    ensures r.Some? ==> r.value.code == 0 || r.value.code == FailureCode(abi, ReadOp(d))
  {
    var r1 :- ReadRun(abi, d, ram, p.before);
    if r1.code != 0 then Some(r1) else
    var r2 :- ReadAcross(abi, d, r1.ram, p.across, p.below);
    if r2.code != 0 then Some(r2) else
    var r3 :- ReadRun(abi, d, r2.ram, p.after);
    if r3.code != 0 then Some(r3) else
    TagsCleared(r3.ram, d.image)
  }

  /** SonyPrime_read_special: a read whose guest buffer starts below
      RAM_SIZE_LO and reaches it. */
  function ReadSpecial(abi: Abi, d: Drive, ram: Ram, addr: nat, length: nat, position: nat): Option<Io>
    requires addr < ram.loSize <= addr + length
    requires length % SECTOR == 0
  {
    ReadPlan(abi, d, ram, SplitPlan(ram.loSize, addr, length, position))
  }

  /** Case 2 of a split write: sectorbuff is assembled from the bytes under
      and above the split, then written as one sector. */
  function WriteStraddle(abi: Abi, d: Drive, ram: Ram, dest: nat, below: nat, boffs: nat): (r: Option<Io>)
    requires below < SECTOR
    ensures r.Some? && r.value.code != 0 ==> RamRead16(r.value.ram, DSK_ERR) == Some(Word16(r.value.code))
    ensures r.Some? && WriteOp(d) == Copies ==> r.value.ram == ram && r.value.code == 0
    ensures r.Some? ==> r.value.code == 0 || r.value.code == FailureCode(abi, WriteOp(d))
  {
    var sector :- SplitCopyOut(ram, dest, below);
    DoWrite(abi, d, ram, Some(sector), boffs)
  }

  /** Cases 1 and 3 of a split write: the run's whole sectors (none when its
      count is 0) written from guest RAM. */
  function WriteRun(abi: Abi, d: Drive, ram: Ram, r: Run): Option<Io> {
    if r.count > 0 then DoWrite(abi, d, ram, HostRead(ram, Mac2Host(ram, r.addr), r.count), r.position)
    else Some(Io(ram, d.image, 0))
  }

  /** Case 2 of a split write, when a sector straddles the split (`below` > 0). */
  function WriteAcross(abi: Abi, d: Drive, ram: Ram, r: Run, below: nat): Option<Io>
    requires below < SECTOR
  {
    if below > 0 then WriteStraddle(abi, d, ram, r.addr, below, r.position)
    else Some(Io(ram, d.image, 0))
  }

  /** The three cases of a split write in order, each against the image the
      previous one left; the first that reports an error ends it. */
  function WritePlan(abi: Abi, d: Drive, ram: Ram, p: Plan): (r: Option<Io>)
    requires p.below < SECTOR
    ensures r.Some? && r.value.code != 0 ==> RamRead16(r.value.ram, DSK_ERR) == Some(Word16(r.value.code))
    ensures r.Some? && WriteOp(d) == Copies ==> r.value.ram == ram && r.value.code == 0
    ensures r.Some? ==> r.value.code == 0 || r.value.code == FailureCode(abi, WriteOp(d))
  {
    var r1 :- WriteRun(abi, d, ram, p.before);
    if r1.code != 0 then Some(r1) else
    var r2 :- WriteAcross(abi, d.(image := r1.image), r1.ram, p.across, p.below);
    if r2.code != 0 then Some(r2) else
    WriteRun(abi, d.(image := r2.image), r2.ram, p.after)
  }

  /** SonyPrime_write_special: the write counterpart of ReadSpecial.  It has
      no read-only check of its own. */
  function WriteSpecial(abi: Abi, d: Drive, ram: Ram, addr: nat, length: nat, position: nat): Option<Io>
    requires addr < ram.loSize <= addr + length
    requires length % SECTOR == 0
  {
    WritePlan(abi, d, ram, SplitPlan(ram.loSize, addr, length, position))
  }

  // ---------------------------------------------------------------------------
  // The reference: one contiguous copy over logical RAM

  /** A read of `length` bytes from `position` into guest RAM at `addr` as one
      copy, followed by the TagBuf clear. */
  function ContiguousRead(abi: Abi, d: Drive, ram: Ram, addr: nat, length: nat, position: nat): Option<Io>
    requires addr + length <= ram.Size()
  {
    var f :- Fetch(abi, d, position, length);
    match f
    case Failed(c) => Fail(ram, d.image, c)
    case Got(b) =>
      TagsCleared(LogicalWrite(ram, addr, b), d.image)
  }

  /** A write of guest RAM [addr, addr+length) to the disc at `position` as one copy. */
  function ContiguousWrite(abi: Abi, d: Drive, ram: Ram, addr: nat, length: nat, position: nat): Option<Io>
    requires addr + length <= ram.Size()
  {
    DoWrite(abi, d, ram, Some(ram.bytes[addr..addr + length]), position)
  }

  // ---------------------------------------------------------------------------
  // A transfer split at RAM_SIZE_LO is a contiguous copy

  /** A host copy into guest RAM that stays on one side of the split is a
      logical write. */
  lemma CopyInIsLogical(ram: Ram, a: nat, data: seq<Byte>)
    requires |data| > 0 && a + |data| <= ram.Size() <= 0x100_0000
    requires a + |data| <= ram.loSize || ram.loSize <= a
    ensures CopyIn(ram, a, data) == Some(LogicalWrite(ram, a, data))
  {
    assert a % 0x100_0000 == a;
    assert Fits(ram, RamGetBase(ram, a), |data|);
    HostWriteIsLogical(ram, a, data);
  }

  /** A host copy out of guest RAM that stays on one side of the split reads
      logical RAM. */
  lemma CopyOutIsLogical(ram: Ram, a: nat, n: nat)
    requires n > 0 && a + n <= ram.Size() <= 0x100_0000
    requires a + n <= ram.loSize || ram.loSize <= a
    ensures HostRead(ram, Mac2Host(ram, a), n) == Some(ram.bytes[a..a + n])
  {
    assert a % 0x100_0000 == a;
    assert Fits(ram, RamGetBase(ram, a), n);
    HostReadIsLogical(ram, a, n);
  }

  /** Copying a sector in two pieces either side of the split is one logical write. */
  lemma SplitCopyInIsLogical(ram: Ram, dest: nat, below: nat, sector: seq<Byte>)
    requires 0 < below < |sector| && dest + below == ram.loSize
    requires dest + |sector| <= ram.Size() <= 0x100_0000
    ensures SplitCopyIn(ram, dest, below, sector) == Some(LogicalWrite(ram, dest, sector))
  {
    var w1 := LogicalWrite(ram, dest, sector[..below]);
    var w2 := LogicalWrite(w1, dest + below, sector[below..]);
    assert CopyIn(ram, dest, sector[..below]) == Some(w1) by {
      CopyInIsLogical(ram, dest, sector[..below]);
    }
    assert CopyIn(w1, dest + below, sector[below..]) == Some(w2) by {
      CopyInAboveSplit(ram, dest, below, sector, w1);
    }
    SplitCopyInChain(ram, dest, below, sector, w1, w2);
    assert w2 == LogicalWrite(ram, dest, sector) by {
      LogicalWriteSplit(ram, dest, sector, below);
    }
  }

  lemma SplitCopyInChain(ram: Ram, dest: nat, below: nat, sector: seq<Byte>, w1: Ram, w2: Ram)
    requires below <= |sector|
    requires CopyIn(ram, dest, sector[..below]) == Some(w1)
    requires CopyIn(w1, dest + below, sector[below..]) == Some(w2)
    ensures SplitCopyIn(ram, dest, below, sector) == Some(w2)
  {
  }

  /** The second copy of SplitCopyIn, into a RAM `w` shaped like `ram`. */
  lemma CopyInAboveSplit(ram: Ram, dest: nat, below: nat, sector: seq<Byte>, w: Ram)
    requires 0 < below < |sector| && dest + below == ram.loSize
    requires dest + |sector| <= ram.Size() <= 0x100_0000
    requires w.loSize == ram.loSize && w.Size() == ram.Size()
    ensures CopyIn(w, dest + below, sector[below..]) == Some(LogicalWrite(w, dest + below, sector[below..]))
  {
    CopyInIsLogical(w, dest + below, sector[below..]);
  }

  /** Reading a sector in two pieces either side of the split reads logical RAM. */
  lemma SplitCopyOutIsLogical(ram: Ram, dest: nat, below: nat)
    requires 0 < below < SECTOR && dest + below == ram.loSize
    requires dest + SECTOR <= ram.Size() <= 0x100_0000
    ensures SplitCopyOut(ram, dest, below) == Some(ram.bytes[dest..dest + SECTOR])
  {
    CopyOutIsLogical(ram, dest, below);
    CopyOutIsLogical(ram, dest + below, SECTOR - below);
    assert ram.bytes[dest..dest + below] + ram.bytes[dest + below..dest + SECTOR]
        == ram.bytes[dest..dest + SECTOR];
  }

  /** A run of a read delivers the bytes of the disc it covers. */
  lemma ReadRunIsLogical(abi: Abi, d: Drive, ram: Ram, r: Run) returns (w: Ram)
    requires ReadOp(d) == Copies && r.position + r.count <= |d.image|
    requires r.addr + r.count <= ram.Size() <= 0x100_0000
    requires r.addr + r.count <= ram.loSize || ram.loSize <= r.addr
    ensures w == LogicalWrite(ram, r.addr, DiscBytes(d.image, r))
    ensures ReadRun(abi, d, ram, r) == Some(Io(w, d.image, 0))
  {
    w := LogicalWrite(ram, r.addr, DiscBytes(d.image, r));
    if r.count > 0 {
      CopyInIsLogical(ram, r.addr, DiscBytes(d.image, r));
    } else {
      LogicalWriteEmpty(ram, r.addr);
    }
  }

  /** The straddling sector, if any, lands in one piece at its run's address. */
  lemma ReadAcrossIsLogical(abi: Abi, d: Drive, ram: Ram, r: Run, below: nat) returns (w: Ram)
    requires below < SECTOR && r.count == (if below > 0 then SECTOR else 0)
    requires below > 0 ==> r.addr + below == ram.loSize
    requires ReadOp(d) == Copies && r.position + r.count <= |d.image|
    requires r.addr + r.count <= ram.Size() <= 0x100_0000
    ensures w == LogicalWrite(ram, r.addr, DiscBytes(d.image, r))
    ensures ReadAcross(abi, d, ram, r, below) == Some(Io(w, d.image, 0))
  {
    w := LogicalWrite(ram, r.addr, DiscBytes(d.image, r));
    if below > 0 {
      SplitCopyInIsLogical(ram, r.addr, below, DiscBytes(d.image, r));
    } else {
      LogicalWriteEmpty(ram, r.addr);
    }
  }

  /** Three chained logical writes of a plan's runs are one write of the whole. */
  lemma ChunksCompose(ram: Ram, image: seq<Byte>, p: Plan, w1: Ram, w2: Ram, w3: Ram)
    requires Adjacent(p.before, p.across) && Adjacent(p.across, p.after)
    requires Whole(p).position + Whole(p).count <= |image| && Whole(p).addr + Whole(p).count <= ram.Size()
    requires w1 == LogicalWrite(ram, p.before.addr, DiscBytes(image, p.before))
    requires w2 == LogicalWrite(w1, p.across.addr, DiscBytes(image, p.across))
    requires w3 == LogicalWrite(w2, p.after.addr, DiscBytes(image, p.after))
    ensures w3 == LogicalWrite(ram, p.before.addr, DiscBytes(image, Whole(p)))
  {
    var c1, c2, c3 := DiscBytes(image, p.before), DiscBytes(image, p.across), DiscBytes(image, p.after);
    LogicalWriteAdjacent(ram, p.before.addr, c1, c2);
    LogicalWriteAdjacent(ram, p.before.addr, c1 + c2, c3);
    ThreeSlices(image, p.before.position, p.across.position, p.after.position, p.after.position + p.after.count);
  }

  lemma ThreeSlices(s: seq<Byte>, i: nat, j: nat, k: nat, l: nat)
    requires i <= j <= k <= l <= |s|
    ensures s[i..j] + s[j..k] + s[k..l] == s[i..l]
  {
  }

  /** With a copying read path, the three runs of a plan are one contiguous read. */
  lemma ReadPlanIsContiguous(abi: Abi, d: Drive, ram: Ram, p: Plan)
    requires PlanAt(p, ram.loSize) && ReadOp(d) == Copies
    requires Whole(p).addr + Whole(p).count <= ram.Size() <= 0x100_0000
    requires Whole(p).position + Whole(p).count <= |d.image|
    ensures ReadPlan(abi, d, ram, p) == ContiguousRead(abi, d, ram, Whole(p).addr, Whole(p).count, Whole(p).position)
  {
    var w1 := ReadRunIsLogical(abi, d, ram, p.before);
    var w2 := ReadAcrossIsLogical(abi, d, w1, p.across, p.below);
    var w3 := ReadRunIsLogical(abi, d, w2, p.after);
    ReadPlanCompletes(abi, d, ram, p, w1, w2, w3);
    ChunksCompose(ram, d.image, p, w1, w2, w3);
    ContiguousReadCopies(abi, d, ram, Whole(p));
  }

  /** When every case of a plan succeeds, the read ends with the TagBuf clear. */
  lemma ReadPlanCompletes(abi: Abi, d: Drive, ram: Ram, p: Plan, w1: Ram, w2: Ram, w3: Ram)
    requires p.below < SECTOR
    requires ReadRun(abi, d, ram, p.before) == Some(Io(w1, d.image, 0))
    requires ReadAcross(abi, d, w1, p.across, p.below) == Some(Io(w2, d.image, 0))
    requires ReadRun(abi, d, w2, p.after) == Some(Io(w3, d.image, 0))
    ensures ReadPlan(abi, d, ram, p) == TagsCleared(w3, d.image)
  {
  }

  /** With a copying read path the contiguous read is the copy and the TagBuf clear. */
  lemma ContiguousReadCopies(abi: Abi, d: Drive, ram: Ram, r: Run)
    requires ReadOp(d) == Copies && r.position + r.count <= |d.image|
    requires r.addr + r.count <= ram.Size()
    ensures ContiguousRead(abi, d, ram, r.addr, r.count, r.position)
            == TagsCleared(LogicalWrite(ram, r.addr, DiscBytes(d.image, r)), d.image)
  {
    var addr, length, position := r.addr, r.count, r.position;
    assert Fetch(abi, d, position, length) == Some(Got(DiscBytes(d.image, r)));
  }

  /** A contiguous read from a copying drive completes when TagBuf lies in
      the low host buffer. */
  lemma ContiguousReadSucceeds(abi: Abi, d: Drive, ram: Ram, r: Run)
    requires ReadOp(d) == Copies && r.position + r.count <= |d.image|
    requires r.addr + r.count <= ram.Size() && TAG_BUF + 12 <= ram.loSize
    ensures ContiguousRead(abi, d, ram, r.addr, r.count, r.position).Some?
  {
    ContiguousReadCopies(abi, d, ram, r);
    ClearTagBufSucceeds(LogicalWrite(ram, r.addr, DiscBytes(d.image, r)));
  }

  /** Without a copying read path a plan fails at its first non-empty case. */
  lemma ReadPlanFails(abi: Abi, d: Drive, ram: Ram, p: Plan)
    requires abi.Valid() && ReadOp(d) != Copies
    requires p.below < SECTOR && (p.before.count > 0 || p.below > 0)
    ensures ReadPlan(abi, d, ram, p) == Fail(ram, d.image, FailureCode(abi, ReadOp(d)))
  {
  }

  /** The split read of SonyPrime_read_special leaves guest RAM exactly as one
      contiguous copy would, and fails exactly as it would. */
  lemma ReadSpecialIsContiguous(abi: Abi, d: Drive, ram: Ram, addr: nat, length: nat, position: nat)
    requires abi.Valid()
    requires addr < ram.loSize <= addr + length && addr + length <= ram.Size() <= 0x100_0000
    requires length % SECTOR == 0 && position + length <= |d.image|
    ensures ReadSpecial(abi, d, ram, addr, length, position) == ContiguousRead(abi, d, ram, addr, length, position)
  {
    var p := SplitPlan(ram.loSize, addr, length, position);
    if ReadOp(d) == Copies {
      ReadPlanIsContiguous(abi, d, ram, p);
    } else {
      ReadPlanFails(abi, d, ram, p);
    }
  }

  /** A run of a write stores the guest bytes it covers. */
  lemma WriteRunIsLogical(abi: Abi, d: Drive, ram: Ram, r: Run) returns (image: seq<Byte>)
    requires WriteOp(d) == Copies && r.position + r.count <= |d.image|
    requires r.addr + r.count <= ram.Size() <= 0x100_0000
    requires r.addr + r.count <= ram.loSize || ram.loSize <= r.addr
    ensures image == Overwrite(d.image, r.position, GuestBytes(ram, r))
    ensures WriteRun(abi, d, ram, r) == Some(Io(ram, image, 0))
  {
    image := Overwrite(d.image, r.position, GuestBytes(ram, r));
    if r.count > 0 {
      CopyOutIsLogical(ram, r.addr, r.count);
    }
  }

  /** The straddling sector, if any, is stored in one piece. */
  lemma WriteAcrossIsLogical(abi: Abi, d: Drive, ram: Ram, r: Run, below: nat) returns (image: seq<Byte>)
    requires below < SECTOR && r.count == (if below > 0 then SECTOR else 0)
    requires below > 0 ==> r.addr + below == ram.loSize
    requires WriteOp(d) == Copies && r.position + r.count <= |d.image|
    requires r.addr + r.count <= ram.Size() <= 0x100_0000
    ensures image == Overwrite(d.image, r.position, GuestBytes(ram, r))
    ensures WriteAcross(abi, d, ram, r, below) == Some(Io(ram, image, 0))
  {
    image := Overwrite(d.image, r.position, GuestBytes(ram, r));
    if below > 0 {
      SplitCopyOutIsLogical(ram, r.addr, below);
    }
  }

  /** Three chained overwrites of a plan's runs are one overwrite of the whole. */
  lemma ImagesCompose(ram: Ram, image: seq<Byte>, p: Plan, i1: seq<Byte>, i2: seq<Byte>, i3: seq<Byte>)
    requires Adjacent(p.before, p.across) && Adjacent(p.across, p.after)
    requires Whole(p).position + Whole(p).count <= |image| && Whole(p).addr + Whole(p).count <= ram.Size()
    requires i1 == Overwrite(image, p.before.position, GuestBytes(ram, p.before))
    requires i2 == Overwrite(i1, p.across.position, GuestBytes(ram, p.across))
    requires i3 == Overwrite(i2, p.after.position, GuestBytes(ram, p.after))
    ensures i3 == Overwrite(image, p.before.position, GuestBytes(ram, Whole(p)))
  {
    var a := p.before.position;
    var c1, c2, c3 := GuestBytes(ram, p.before), GuestBytes(ram, p.across), GuestBytes(ram, p.after);
    OverwriteThen(image, a, p.across.position, c1, c2);
    OverwriteThen(image, a, p.after.position, c1 + c2, c3);
    ThreeSlices(ram.bytes, p.before.addr, p.across.addr, p.after.addr, p.after.addr + p.after.count);
  }

  /** OverwriteAdjacent with the second offset named. */
  lemma OverwriteThen(s: seq<Byte>, a: nat, b: nat, d1: seq<Byte>, d2: seq<Byte>)
    requires b == a + |d1| && b + |d2| <= |s|
    ensures Overwrite(Overwrite(s, a, d1), b, d2) == Overwrite(s, a, d1 + d2)
  {
    OverwriteAdjacent(s, a, d1, d2);
  }

  /** With a copying write path, the three runs of a plan are one contiguous write. */
  lemma WritePlanIsContiguous(abi: Abi, d: Drive, ram: Ram, p: Plan)
    requires PlanAt(p, ram.loSize) && WriteOp(d) == Copies
    requires Whole(p).addr + Whole(p).count <= ram.Size() <= 0x100_0000
    requires Whole(p).position + Whole(p).count <= |d.image|
    ensures WritePlan(abi, d, ram, p) == ContiguousWrite(abi, d, ram, Whole(p).addr, Whole(p).count, Whole(p).position)
  {
    var i1 := WriteRunIsLogical(abi, d, ram, p.before);
    var i2 := WriteAcrossIsLogical(abi, d.(image := i1), ram, p.across, p.below);
    var i3 := WriteRunIsLogical(abi, d.(image := i2), ram, p.after);
    WritePlanCompletes(abi, d, ram, p, i1, i2, i3);
    ImagesCompose(ram, d.image, p, i1, i2, i3);
    ContiguousWriteCopies(abi, d, ram, Whole(p));
  }

  /** When every case of a plan succeeds, the write ends with the image the last left. */
  lemma WritePlanCompletes(abi: Abi, d: Drive, ram: Ram, p: Plan, i1: seq<Byte>, i2: seq<Byte>, i3: seq<Byte>)
    requires p.below < SECTOR
    requires WriteRun(abi, d, ram, p.before) == Some(Io(ram, i1, 0))
    requires WriteAcross(abi, d.(image := i1), ram, p.across, p.below) == Some(Io(ram, i2, 0))
    requires WriteRun(abi, d.(image := i2), ram, p.after) == Some(Io(ram, i3, 0))
    ensures WritePlan(abi, d, ram, p) == Some(Io(ram, i3, 0))
  {
  }

  /** With a copying write path the contiguous write overwrites the run's bytes. */
  lemma ContiguousWriteCopies(abi: Abi, d: Drive, ram: Ram, r: Run)
    requires WriteOp(d) == Copies && r.position + r.count <= |d.image|
    requires r.addr + r.count <= ram.Size()
    ensures ContiguousWrite(abi, d, ram, r.addr, r.count, r.position)
            == Some(Io(ram, Overwrite(d.image, r.position, GuestBytes(ram, r)), 0))
  {
  }

  /** Without a copying write path a plan fails at its first non-empty case. */
  lemma WritePlanFails(abi: Abi, d: Drive, ram: Ram, p: Plan)
    requires abi.Valid() && WriteOp(d) != Copies
    requires PlanAt(p, ram.loSize) && (p.before.count > 0 || p.below > 0)
    requires Whole(p).addr + Whole(p).count <= ram.Size() <= 0x100_0000
    ensures WritePlan(abi, d, ram, p) == Fail(ram, d.image, FailureCode(abi, WriteOp(d)))
  {
    if p.before.count == 0 {
      SplitCopyOutIsLogical(ram, p.across.addr, p.below);
    }
  }

  /** The split write of SonyPrime_write_special stores exactly what one
      contiguous copy would, and fails exactly as it would. */
  lemma WriteSpecialIsContiguous(abi: Abi, d: Drive, ram: Ram, addr: nat, length: nat, position: nat)
    requires abi.Valid()
    requires addr < ram.loSize <= addr + length && addr + length <= ram.Size() <= 0x100_0000
    requires length % SECTOR == 0 && position + length <= |d.image|
    ensures WriteSpecial(abi, d, ram, addr, length, position) == ContiguousWrite(abi, d, ram, addr, length, position)
  {
    var p := SplitPlan(ram.loSize, addr, length, position);
    if WriteOp(d) == Copies {
      WritePlanIsContiguous(abi, d, ram, p);
    } else {
      WritePlanFails(abi, d, ram, p);
    }
  }
}
