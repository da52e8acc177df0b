/** The entry points of the replacement .Sony driver in src/disc.c: the
    Open, Prime, Control and Status routines, each working on a parameter
    block (`pb`) and device control entry (`dce`) in guest memory, and
    disc_pv_hook, which the 68000 driver stub calls with the routine number. */
module Sony {
  import opened Maybe
  import opened MachHw
  import opened Disc

  /** What a driver routine leaves behind: guest RAM, the drive table, the
      code it returns, and whether it reported an eject (umac_disc_ejected). */
  datatype Outcome = Outcome(ram: Ram, drives: Drives, code: int, ejected: bool)

  /** `return set_dsk_err(code)`: the routine ends by storing its code in DskErr. */
  function Finish(ram: Ram, drives: Drives, code: int, ejected: bool): (r: Option<Outcome>)
    ensures r.Some? ==> r.value.code == code && r.value.drives == drives && r.value.ejected == ejected
    ensures r.Some? ==> RamRead16(r.value.ram, DSK_ERR) == Some(Word16(code))
    ensures r.Some? <==> SetDskErr(ram, code).Some?
    ensures r.Some? ==> r.value.ram == SetDskErr(ram, code).value
  {
    var w :- SetDskErr(ram, code);
    Some(Outcome(w, drives, code, ejected))
  }

  /** The DskErr word holds the code an outcome reports. */
  predicate Mirrored(o: Outcome) {
    RamRead16(o.ram, DSK_ERR) == Some(Word16(o.code))
  }

  // ---------------------------------------------------------------------------
  // SonyPrime

  /** The transfer code as written, and with the two defects listed in the
      README's findings corrected: the straddle guard looks at the 24-bit
      address Mac2HostAddr uses, and a write to a read-only drive is refused
      on the straddling path too. */
  datatype Build = AsWritten | Corrected

  /** The buffer address the straddle guard compares with RAM_SIZE_LO. */
  function GuardAddress(build: Build, buf: bv32): nat {
    if build == AsWritten then buf as nat else Adr24(buf) as nat
  }

  /** The guard of SonyPrime_read/write: RAM is split and the buffer starts
      below RAM_SIZE_LO and reaches it. */
  predicate Straddles(ram: Ram, a: nat, length: nat) {
    ram.IsSplit() && a < ram.loSize <= a + length
  }

  /** SonyPrime_read: the split read when the buffer straddles, otherwise one
      do_read through Mac2HostAddr followed by the TagBuf clear. */
  function PrimeRead(abi: Abi, build: Build, d: Drive, ram: Ram, buf: bv32, length: nat, position: nat): (r: Option<Io>)
    requires length % SECTOR == 0
    ensures r.Some? ==> r.value.image == d.image
    ensures r.Some? && r.value.code != 0 ==> RamRead16(r.value.ram, DSK_ERR) == Some(Word16(r.value.code))
    ensures r.Some? ==> r.value.code == 0 || r.value.code == FailureCode(abi, ReadOp(d))
  {
    BufferRead(abi, d, ram, GuardAddress(build, buf), Adr24(buf) as nat, length, position)
  }

  /** SonyPrime_read for a buffer whose guard address is `g` and whose 24-bit
      address, the one Mac2HostAddr uses, is `a`. */
  function BufferRead(abi: Abi, d: Drive, ram: Ram, g: nat, a: nat, length: nat, position: nat): (r: Option<Io>)
    requires length % SECTOR == 0
    ensures r.Some? ==> r.value.image == d.image
    ensures r.Some? && r.value.code != 0 ==> RamRead16(r.value.ram, DSK_ERR) == Some(Word16(r.value.code))
    ensures r.Some? ==> r.value.code == 0 || r.value.code == FailureCode(abi, ReadOp(d))
  {
    if Straddles(ram, g, length) then ReadSpecial(abi, d, ram, g, length, position)
    else
      var io :- DoRead(abi, d, ram, Mac2Host(ram, a), length, position);
      if io.code != 0 then Some(io) else
      TagsCleared(io.ram, d.image)
  }

  /** SonyPrime_write: the split write when the buffer straddles, otherwise
      wPrErr for a read-only drive or one do_write through Mac2HostAddr.  The
      corrected build refuses a read-only drive first. */
  function PrimeWrite(abi: Abi, build: Build, d: Drive, ram: Ram, buf: bv32, length: nat, position: nat): (r: Option<Io>)
    requires length % SECTOR == 0
    ensures r.Some? && r.value.code != 0 ==> RamRead16(r.value.ram, DSK_ERR) == Some(Word16(r.value.code))
    ensures r.Some? ==> r.value.code in {0, FailureCode(abi, WriteOp(d)), abi.wPrErr}
    ensures build == Corrected && d.readOnly ==> r == Fail(ram, d.image, abi.wPrErr)
  {
    if build == Corrected && d.readOnly then Fail(ram, d.image, abi.wPrErr)
    else BufferWrite(abi, d, ram, GuardAddress(build, buf), Adr24(buf) as nat, length, position)
  }

  /** SonyPrime_write for guard address `g` and 24-bit address `a`. */
  function BufferWrite(abi: Abi, d: Drive, ram: Ram, g: nat, a: nat, length: nat, position: nat): (r: Option<Io>)
    requires length % SECTOR == 0
    ensures r.Some? && r.value.code != 0 ==> RamRead16(r.value.ram, DSK_ERR) == Some(Word16(r.value.code))
    ensures r.Some? ==> r.value.code in {0, FailureCode(abi, WriteOp(d)), abi.wPrErr}
    ensures !Straddles(ram, g, length) && d.readOnly ==> r == Fail(ram, d.image, abi.wPrErr)
  {
    if Straddles(ram, g, length) then WriteSpecial(abi, d, ram, g, length, position)
    else if d.readOnly then Fail(ram, d.image, abi.wPrErr)
    else DoWrite(abi, d, ram, HostRead(ram, Mac2Host(ram, a), length), position)
  }

  /** A read whose guard sees the address the copy uses is one contiguous
      copy at that address, on either side of RAM_SIZE_LO or across it. */
  lemma BufferReadIsContiguous(abi: Abi, d: Drive, ram: Ram, a: nat, length: nat, position: nat)
    requires abi.Valid()
    requires 0 < length && length % SECTOR == 0 && position + length <= |d.image|
    requires a + length <= ram.Size() <= 0x100_0000
    ensures BufferRead(abi, d, ram, a, a, length, position) == ContiguousRead(abi, d, ram, a, length, position)
  {
    if Straddles(ram, a, length) {
      ReadSpecialIsContiguous(abi, d, ram, a, length, position);
    } else if ReadOp(d) == Copies {
      var r := Run(a, position, length);
      CopyInIsLogical(ram, a, DiscBytes(d.image, r));
      BufferReadPlain(abi, d, ram, a, r, LogicalWrite(ram, a, DiscBytes(d.image, r)));
      ContiguousReadCopies(abi, d, ram, r);
    }
  }

  /** A read that does not straddle, from a copying drive, is the copy into
      RAM followed by the TagBuf clear. */
  lemma BufferReadPlain(abi: Abi, d: Drive, ram: Ram, g: nat, r: Run, w: Ram)
    requires ReadOp(d) == Copies && r.count % SECTOR == 0 && r.position + r.count <= |d.image|
    requires !Straddles(ram, g, r.count)
    requires CopyIn(ram, r.addr, DiscBytes(d.image, r)) == Some(w)
    ensures BufferRead(abi, d, ram, g, r.addr, r.count, r.position)
            == TagsCleared(w, d.image)
  {
    var p := Mac2Host(ram, r.addr);
    var b := DiscBytes(d.image, r);
    assert DoRead(abi, d, ram, p, r.count, r.position) == CopiedIn(ram, p, b, d.image);
    assert CopiedIn(ram, p, b, d.image) == Some(Io(w, d.image, 0));
  }

  /** A write from a writable drive whose guard sees the address the copy
      uses is one contiguous copy from that address. */
  lemma BufferWriteIsContiguous(abi: Abi, d: Drive, ram: Ram, a: nat, length: nat, position: nat)
    requires abi.Valid() && !d.readOnly
    requires 0 < length && length % SECTOR == 0 && position + length <= |d.image|
    requires a + length <= ram.Size() <= 0x100_0000
    ensures BufferWrite(abi, d, ram, a, a, length, position) == ContiguousWrite(abi, d, ram, a, length, position)
  {
    if Straddles(ram, a, length) {
      WriteSpecialIsContiguous(abi, d, ram, a, length, position);
    } else {
      CopyOutIsLogical(ram, a, length);
    }
  }

  /** With the corrected guard, a Prime read into a buffer inside guest RAM
      is one contiguous copy at the buffer's 24-bit address, whether or not it
      straddles RAM_SIZE_LO, and fails exactly as that copy would. */
  lemma PrimeReadIsContiguous(abi: Abi, d: Drive, ram: Ram, buf: bv32, length: nat, position: nat)
    requires abi.Valid()
    requires 0 < length && length % SECTOR == 0 && position + length <= |d.image|
    requires Adr24(buf) as nat + length <= ram.Size() <= 0x100_0000
    ensures PrimeRead(abi, Corrected, d, ram, buf, length, position)
            == ContiguousRead(abi, d, ram, Adr24(buf) as nat, length, position)
  {
    BufferReadIsContiguous(abi, d, ram, Adr24(buf) as nat, length, position);
  }

  /** With the corrected checks, a Prime write from a buffer inside guest RAM
      is refused with wPrErr on a read-only drive and is otherwise one
      contiguous copy of the buffer onto the disc. */
  lemma PrimeWriteIsContiguous(abi: Abi, d: Drive, ram: Ram, buf: bv32, length: nat, position: nat)
    requires abi.Valid()
    requires 0 < length && length % SECTOR == 0 && position + length <= |d.image|
    requires Adr24(buf) as nat + length <= ram.Size() <= 0x100_0000
    ensures PrimeWrite(abi, Corrected, d, ram, buf, length, position)
            == if d.readOnly then Fail(ram, d.image, abi.wPrErr)
               else ContiguousWrite(abi, d, ram, Adr24(buf) as nat, length, position)
  {
    if !d.readOnly {
      BufferWriteIsContiguous(abi, d, ram, Adr24(buf) as nat, length, position);
    }
  }

  // ---------------------------------------------------------------------------
  // Findings

  /** A read whose guard address lies past RAM while its copy address
      straddles the split takes the single-copy path, and that copy runs past
      the end of the low host buffer. */
  lemma BufferReadOverruns(abi: Abi, d: Drive, ram: Ram, g: nat, a: nat, length: nat, position: nat)
    requires ReadOp(d) == Copies && length % SECTOR == 0 && position + length <= |d.image|
    requires g >= ram.Size() && a < ram.loSize < a + length <= ram.Size() <= 0x100_0000
    ensures BufferRead(abi, d, ram, g, a, length, position).None?
  {
    assert Mac2Host(ram, a) == HostPtr(Low, a);
  }

  /** As written, the straddle guard compares the full 32-bit ioBuffer with
      RAM_SIZE_LO while the copy goes to its 24-bit address: a buffer whose
      top byte is set and whose 24-bit address straddles the split passes the
      guard, and the one host copy runs past the end of the low buffer.  The
      corrected guard reads it as the contiguous copy it should be. */
  lemma UnmaskedGuardOverruns(abi: Abi, d: Drive, ram: Ram, buf: bv32, length: nat, position: nat)
    requires abi.Valid() && ReadOp(d) == Copies
    requires buf as nat >= 0x100_0000
    requires Adr24(buf) as nat < ram.loSize < Adr24(buf) as nat + length <= ram.Size() <= 0x100_0000
    requires length % SECTOR == 0 && position + length <= |d.image|
    requires TAG_BUF + 12 <= ram.loSize
    ensures PrimeRead(abi, AsWritten, d, ram, buf, length, position).None?
    ensures PrimeRead(abi, Corrected, d, ram, buf, length, position)
            == ContiguousRead(abi, d, ram, Adr24(buf) as nat, length, position)
    ensures ContiguousRead(abi, d, ram, Adr24(buf) as nat, length, position).Some?
  {
    var a := Adr24(buf) as nat;
    BufferReadOverruns(abi, d, ram, buf as nat, a, length, position);
    BufferReadIsContiguous(abi, d, ram, a, length, position);
    ContiguousReadSucceeds(abi, d, ram, Run(a, position, length));
  }

  /** A straddling write of a copying drive goes through whatever the drive's
      read-only flag says. */
  lemma BufferWriteStraddling(abi: Abi, d: Drive, ram: Ram, r: Run)
    requires abi.Valid() && WriteOp(d) == Copies
    requires ram.IsSplit() && r.addr < ram.loSize <= r.addr + r.count <= ram.Size() <= 0x100_0000
    requires r.count % SECTOR == 0 && r.position + r.count <= |d.image|
    ensures BufferWrite(abi, d, ram, r.addr, r.addr, r.count, r.position)
            == Some(Io(ram, Overwrite(d.image, r.position, GuestBytes(ram, r)), 0))
  {
    WriteSpecialIsContiguous(abi, d, ram, r.addr, r.count, r.position);
    ContiguousWriteCopies(abi, d, ram, r);
  }

  /** As written, only the non-straddling write path checks the drive's
      read-only flag: a straddling write to a read-only drive overwrites the
      disc and reports success.  The corrected PrimeWrite refuses it with
      wPrErr. */
  lemma StraddlingWriteIgnoresReadOnly(abi: Abi, d: Drive, ram: Ram, buf: bv32, r: Run)
    requires abi.Valid() && d.readOnly && WriteOp(d) == Copies
    requires Adr24(buf) == buf && r.addr == buf as nat
    requires ram.IsSplit() && r.addr < ram.loSize <= r.addr + r.count <= ram.Size() <= 0x100_0000
    requires r.count % SECTOR == 0 && r.position + r.count <= |d.image|
    ensures PrimeWrite(abi, AsWritten, d, ram, buf, r.count, r.position)
            == Some(Io(ram, Overwrite(d.image, r.position, GuestBytes(ram, r)), 0))
    ensures PrimeWrite(abi, Corrected, d, ram, buf, r.count, r.position) == Fail(ram, d.image, abi.wPrErr)
  {
    assert PrimeWrite(abi, AsWritten, d, ram, buf, r.count, r.position) == BufferWrite(abi, d, ram, r.addr, r.addr, r.count, r.position);
    BufferWriteStraddling(abi, d, ram, r);
  }

  /** SonyPrime's parameter check: length and position whole sectors, and the
      transfer inside the disc. */
  predicate ParamsValid(length: bv32, position: bv32, size: nat) {
    (length & 0x1ff) == 0 && (position & 0x1ff) == 0 && position as nat + length as nat <= size
  }

  /** Disjointness of a long at `x` from a word or a byte at `y`, and of a
      byte at `x` from a word at `y`. */
  predicate LongClearOfWord(x: nat, y: nat) {
    x + 4 <= y || y + 2 <= x
  }

  predicate LongClearOfByte(x: nat, y: nat) {
    x + 4 <= y || y + 1 <= x
  }

  predicate ByteClearOfWord(x: nat, y: nat) {
    x + 1 <= y || y + 2 <= x
  }

  /** An early exit: the outcome reports `code`, and the RAM is `ram` with
      only DskErr set. */
  predicate EndsWith(o: Outcome, ram: Ram, code: int) {
    o.code == code && Some(o.ram) == SetDskErr(ram, code)
  }

  /** The length and position in a request are readable and Prime rejects
      them for a disc of `size` bytes. */
  predicate RequestRejected(abi: Abi, size: nat, ram: Ram, pb: nat, dce: nat) {
    var length := RamRead32(ram, pb + abi.ioReqCount);
    var position := RamRead32(ram, dce + abi.dCtlPosition);
    length.Some? && position.Some? && !ParamsValid(length.value, position.value, size)
  }

  /** The properties every outcome of Prime has: DskErr mirrors the code,
      the code is one Prime can return, nothing is ejected, and only the
      drives' contents may change. */
  predicate PrimeOutcome(abi: Abi, drives: Drives, o: Outcome) {
    && Mirrored(o)
    && o.code in {abi.noErr, abi.nsDrvErr, abi.offLinErr, abi.paramErr, abi.wPrErr}
    && !o.ejected
    && forall j :: 0 <= j < DISC_NUM_DRIVES ==> o.drives[j] == drives[j].(image := o.drives[j].image)
  }

  /** SonyPrime: zero ioActCount and look the drive up. */
  function SonyPrime(abi: Abi, build: Build, drives: Drives, ram: Ram, pb: nat, dce: nat): (r: Option<Outcome>)
    ensures r.Some? ==> PrimeOutcome(abi, drives, r.value)
  {
    var r0 :- RamWrite32(ram, pb + abi.ioActCount, 0);
    var vref :- RamRead16(r0, pb + abi.ioVRefNum);
    match GetDriveInfo(drives, vref as int)
    case None => Finish(r0, drives, abi.nsDrvErr, false)
    case Some(i) => PrimeDrive(abi, build, drives, i, r0, pb, dce)
  }

  /** SonyPrime, drive found: check the disk is in place, mark it accessed,
      and read the request. */
  function PrimeDrive(abi: Abi, build: Build, drives: Drives, i: nat, ram: Ram, pb: nat, dce: nat): (r: Option<Outcome>)
    requires i < DISC_NUM_DRIVES
    ensures r.Some? ==> PrimeOutcome(abi, drives, r.value)
    ensures r.Some? ==> r.value.code in {abi.noErr, abi.offLinErr, abi.paramErr, abi.wPrErr}
    ensures var at := drives[i].status + abi.dsDiskInPlace;
            var count := pb + abi.ioActCount;
            r.Some? && RamRead8(ram, at) == Some(0) ==>
              && r.value.code == abi.offLinErr
              && (LongClearOfWord(count, DSK_ERR) ==> RamRead32(r.value.ram, count) == RamRead32(ram, count))
    ensures var at := drives[i].status + abi.dsDiskInPlace;
            var count := pb + abi.ioActCount;
            var marked := RamWrite8(ram, at, 2);
            r.Some? && RamRead8(ram, at) != Some(0) ==>
              && marked.Some?
              && (RequestRejected(abi, |drives[i].image|, marked.value, pb, dce) ==>
                    && r.value.code == abi.paramErr
                    && (ByteClearOfWord(at, DSK_ERR) ==> RamRead8(r.value.ram, at) == Some(2))
                    && (LongClearOfWord(count, DSK_ERR) && LongClearOfByte(count, at) ==>
                          RamRead32(r.value.ram, count) == RamRead32(ram, count)))
  {
    match RamRead8(ram, drives[i].status + abi.dsDiskInPlace)
    case None => None
    case Some(inPlace) =>
      var at := drives[i].status + abi.dsDiskInPlace;
      var count := pb + abi.ioActCount;
      if inPlace == 0 then
        var r := Finish(ram, drives, abi.offLinErr, false);
        ExitKeeps(r, ram, abi.offLinErr, count, at);
        r
      else match RamWrite8(ram, at, 2)
        case None => None
        case Some(marked) =>
          var r := PrimeRequest(abi, build, drives, i, marked, pb, dce);
          PrimeRequestRejects(abi, build, drives, i, marked, pb, dce);
          MarkKeeps(ram, at, count);
          ExitKeeps(r, marked, abi.paramErr, count, at);
          r
  }

  /** An early exit keeps the longs and bytes clear of DskErr. */
  lemma ExitKeeps(r: Option<Outcome>, ram: Ram, code: int, count: nat, at: nat)
    ensures r.Some? && EndsWith(r.value, ram, code) && LongClearOfWord(count, DSK_ERR) ==>
              RamRead32(r.value.ram, count) == RamRead32(ram, count)
    ensures r.Some? && EndsWith(r.value, ram, code) && ByteClearOfWord(at, DSK_ERR) ==>
              RamRead8(r.value.ram, at) == RamRead8(ram, at)
  {
    if r.Some? && EndsWith(r.value, ram, code) {
      if LongClearOfWord(count, DSK_ERR) {
        SetDskErrFrame32(ram, code, count);
      }
      if ByteClearOfWord(at, DSK_ERR) {
        SetDskErrFrame8(ram, code, at);
      }
    }
  }

  /** Marking the disk accessed stores 2 and keeps the longs clear of it. */
  lemma MarkKeeps(ram: Ram, at: nat, count: nat)
    ensures var marked := RamWrite8(ram, at, 2);
            marked.Some? ==> && RamRead8(marked.value, at) == Some(2)
                             && (LongClearOfByte(count, at) ==> RamRead32(marked.value, count) == RamRead32(ram, count))
  {
    if RamWrite8(ram, at, 2).Some? {
      RamWriteRead8(ram, at, 2);
      if LongClearOfByte(count, at) {
        RamRead32Frame(ram, at, [2], count);
      }
    }
  }

  /** SonyPrime, disk marked accessed: read the request. */
  function PrimeRequest(abi: Abi, build: Build, drives: Drives, i: nat, ram: Ram, pb: nat, dce: nat): (r: Option<Outcome>)
    requires i < DISC_NUM_DRIVES
    ensures r.Some? ==> PrimeOutcome(abi, drives, r.value)
    ensures r.Some? ==> r.value.code in {abi.noErr, abi.offLinErr, abi.paramErr, abi.wPrErr}
  {
    var buf := RamRead32(ram, pb + abi.ioBuffer);
    var length := RamRead32(ram, pb + abi.ioReqCount);
    var position := RamRead32(ram, dce + abi.dCtlPosition);
    if buf.Some? && length.Some? && position.Some?
    then PrimeChecked(abi, build, drives, i, ram, pb, dce, buf.value, length.value, position.value)
    else None
  }

  /** A rejected request ends with paramErr, writing only DskErr. */
  lemma PrimeRequestRejects(abi: Abi, build: Build, drives: Drives, i: nat, ram: Ram, pb: nat, dce: nat)
    requires i < DISC_NUM_DRIVES
    ensures var r := PrimeRequest(abi, build, drives, i, ram, pb, dce);
            r.Some? && RequestRejected(abi, |drives[i].image|, ram, pb, dce) ==> EndsWith(r.value, ram, abi.paramErr)
  {
  }

  /** SonyPrime, request read: length and position must be whole sectors
      and the transfer inside the disc. */
  function PrimeChecked(abi: Abi, build: Build, drives: Drives, i: nat, ram: Ram, pb: nat, dce: nat,
                        buf: bv32, length: bv32, position: bv32): (r: Option<Outcome>)
    requires i < DISC_NUM_DRIVES
    ensures r.Some? ==> PrimeOutcome(abi, drives, r.value)
    ensures r.Some? ==> r.value.code in {abi.noErr, abi.offLinErr, abi.paramErr, abi.wPrErr}
    ensures r.Some? && !ParamsValid(length, position, |drives[i].image|) ==> EndsWith(r.value, ram, abi.paramErr)
  {
    if !ParamsValid(length, position, |drives[i].image|) then Finish(ram, drives, abi.paramErr, false)
    else PrimeTransfer(abi, build, drives, i, ram, pb, dce, buf, Bytes(length), Bytes(position))
  }

  /** A 32-bit count as a number of bytes: a whole number of sectors when
      its low nine bits are clear. */
  function Bytes(x: bv32): (n: nat)
    ensures n == x as nat
    ensures (x & 0x1ff) == 0 ==> n % SECTOR == 0
  {
    if (x & 0x1ff) == 0 then Mask512(x); x as nat else x as nat
  }

  /** SonyPrime, parameters valid: transfer, keep the drive's new contents,
      and finish. */
  function PrimeTransfer(abi: Abi, build: Build, drives: Drives, i: nat, ram: Ram, pb: nat, dce: nat,
                         buf: bv32, length: nat, position: nat): (r: Option<Outcome>)
    requires i < DISC_NUM_DRIVES && length % SECTOR == 0
    ensures r.Some? ==> PrimeOutcome(abi, drives, r.value)
    ensures r.Some? ==> r.value.code in {abi.noErr, abi.offLinErr, abi.paramErr, abi.wPrErr}
  {
    match PrimeIo(abi, build, drives[i], ram, pb, buf, length, position)
    case None => None
    case Some(io) =>
      var after := drives[i := drives[i].(image := io.image)];
      if io.code != 0 then Some(Outcome(io.ram, after, io.code, false))
      else PrimeDone(abi, io.ram, after, pb, dce)
  }

  /** The transfer itself: a read when the low byte of ioTrap is the read
      command, a write otherwise. */
  function PrimeIo(abi: Abi, build: Build, d: Drive, ram: Ram, pb: nat, buf: bv32, length: nat, position: nat): (r: Option<Io>)
    requires length % SECTOR == 0
    ensures r.Some? && r.value.code != 0 ==> RamRead16(r.value.ram, DSK_ERR) == Some(Word16(r.value.code))
    ensures r.Some? ==> r.value.code in {0, FailureCode(abi, ReadOp(d)), FailureCode(abi, WriteOp(d)), abi.wPrErr}
  {
    var trap :- RamRead16(ram, pb + abi.ioTrap);
    if (trap & 0xff) as Byte == abi.aRdCmd then PrimeRead(abi, build, d, ram, buf, length, position)
    else PrimeWrite(abi, build, d, ram, buf, length, position)
  }

  /** Where the end of a successful Prime stores: ioActCount at `count`
      and dCtlPosition at `position`, apart from each other and from DskErr. */
  predicate StoresApart(count: nat, position: nat) {
    && (count + 4 <= position || position + 4 <= count)
    && (count + 4 <= DSK_ERR || DSK_ERR + 2 <= count)
    && (position + 4 <= DSK_ERR || DSK_ERR + 2 <= position)
  }

  /** The end of a successful Prime: when the stores do not overlap,
      ioActCount reads 0 and dCtlPosition is where it was. */
  function PrimeDone(abi: Abi, ram: Ram, drives: Drives, pb: nat, dce: nat): (r: Option<Outcome>)
    ensures r.Some? ==> r.value.code == abi.noErr && r.value.drives == drives && Mirrored(r.value) && !r.value.ejected
    ensures r.Some? && StoresApart(pb + abi.ioActCount, dce + abi.dCtlPosition) ==>
              && RamRead32(r.value.ram, pb + abi.ioActCount) == Some(0)
              && RamRead32(r.value.ram, dce + abi.dCtlPosition) == RamRead32(ram, dce + abi.dCtlPosition)
  {
    var count := pb + abi.ioActCount;
    var position := dce + abi.dCtlPosition;
    match StoreActual(ram, count, position)
    case None => None
    case Some(w) =>
      StoreActualKeepsPosition(ram, count, position);
      DskErrKeepsLongs(abi, w, count, position);
      Finish(w, drives, abi.noErr, false)
  }

  /** The transfer count `actual`, which Prime never advances past 0, goes to
      ioActCount (at `count`) and is added to dCtlPosition (at `position`). */
  function StoreActual(ram: Ram, count: nat, position: nat): (r: Option<Ram>)
    ensures r.Some? ==> r.value.loSize == ram.loSize && r.value.Size() == ram.Size()
  {
    var actual: bv32 := 0;
    match RamWrite32(ram, count, actual)
    case None => None
    case Some(r2) =>
      match RamRead32(r2, position)
      case None => None
      // the long was just read, so it can be written
      case Some(pos) => RamWrite32(r2, position, pos + actual)
  }

  /** StoreActual leaves ioActCount at 0 and dCtlPosition where it was. */
  lemma StoreActualKeepsPosition(ram: Ram, count: nat, position: nat)
    ensures var r := StoreActual(ram, count, position);
            r.Some? && (count + 4 <= position || position + 4 <= count) ==>
              && RamRead32(r.value, count) == Some(0)
              && RamRead32(r.value, position) == RamRead32(ram, position)
  {
    var r := StoreActual(ram, count, position);
    if r.Some? && (count + 4 <= position || position + 4 <= count) {
      var r2 := RamWrite32(ram, count, 0).value;
      var pos := RamRead32(r2, position).value;
      assert pos + 0 == pos;
      StoreActualSteps(ram, r2, r.value, count, position, pos);
    }
  }

  lemma StoreActualSteps(ram: Ram, r2: Ram, r3: Ram, count: nat, position: nat, pos: bv32)
    requires count + 4 <= position || position + 4 <= count
    requires RamWrite32(ram, count, 0) == Some(r2)
    requires RamRead32(r2, position) == Some(pos)
    requires RamWrite32(r2, position, pos) == Some(r3)
    ensures RamRead32(r3, count) == Some(0)
    ensures RamRead32(r3, position) == RamRead32(ram, position)
  {
    RamWriteRead32(r2, position, pos);
    RamRead32Frame(ram, count, Be32(0), position);
    RamWriteRead32(ram, count, 0);
    RamRead32Frame(r2, position, Be32(pos), count);
  }

  /** Storing noErr in DskErr keeps the longs clear of it. */
  lemma DskErrKeepsLongs(abi: Abi, w: Ram, x: nat, y: nat)
    ensures var r := SetDskErr(w, abi.noErr);
            r.Some? && (x + 4 <= DSK_ERR || DSK_ERR + 2 <= x) ==> RamRead32(r.value, x) == RamRead32(w, x)
    ensures var r := SetDskErr(w, abi.noErr);
            r.Some? && (y + 4 <= DSK_ERR || DSK_ERR + 2 <= y) ==> RamRead32(r.value, y) == RamRead32(w, y)
  {
    if x + 4 <= DSK_ERR || DSK_ERR + 2 <= x {
      SetDskErrFrame32(w, abi.noErr, x);
    }
    if y + 4 <= DSK_ERR || DSK_ERR + 2 <= y {
      SetDskErrFrame32(w, abi.noErr, y);
    }
  }

  // ---------------------------------------------------------------------------
  // SonyOpen

  /** One byte of a record: its offset and value. */
  datatype Field = Field(offset: nat, value: Byte)

  /** Byte stores at `base` plus each field's offset, in order; None as soon
      as one falls outside RAM.  StoreBytesIsRamWrite8 shows each step is
      WriteMacInt8. */
  function StoreBytes(ram: Ram, base: nat, fields: seq<Field>): (r: Option<Ram>)
    ensures r.Some? ==> r.value.loSize == ram.loSize && r.value.Size() == ram.Size()
    ensures r.Some? && base <= ram.Size() ==> r.value.bytes[..base] == ram.bytes[..base]
    decreases |fields|
  {
    if fields == [] then Some(ram)
    else
      var a := base + fields[0].offset;
      if a < ram.Size() then
        var w := RamLayout(ram.bytes[a := fields[0].value], ram.loSize);
        assert w.bytes[..base] == ram.bytes[..base];
        StoreBytes(w, base, fields[1..])
      else None
  }

  /** Each step of StoreBytes is a RamWrite8 of the first field. */
  lemma StoreBytesIsRamWrite8(ram: Ram, base: nat, fields: seq<Field>)
    requires fields != []
    ensures var w := RamWrite8(ram, base + fields[0].offset, fields[0].value);
            StoreBytes(ram, base, fields) == if w.Some? then StoreBytes(w.value, base, fields[1..]) else None
  {
    var a := base + fields[0].offset;
    if a < ram.Size() {
      RamWrite8Update(ram, a, fields[0].value);
    }
  }

  /** After the stores, a field that no later field overwrites holds its value. */
  lemma {:induction false} StoreBytesReadBack(ram: Ram, base: nat, fields: seq<Field>, k: nat)
    requires k < |fields|
    requires forall j :: k < j < |fields| ==> fields[j].offset != fields[k].offset
    ensures var r := StoreBytes(ram, base, fields);
            r.Some? ==> base + fields[k].offset < r.value.Size() && r.value.bytes[base + fields[k].offset] == fields[k].value
    decreases |fields|
  {
    var r := StoreBytes(ram, base, fields);
    if r.Some? {
      var f := fields[0];
      var a := base + f.offset;
      var w := RamLayout(ram.bytes[a := f.value], ram.loSize);
      assert r == StoreBytes(w, base, fields[1..]);
      if k == 0 {
        assert w.bytes[a] == f.value;
        StoreBytesKeep(w, base, fields[1..], a);
      } else {
        assert fields[k] == fields[1..][k - 1];
        StoreBytesReadBack(w, base, fields[1..], k - 1);
      }
    }
  }

  /** Stores at other offsets leave the byte at `a` alone. */
  lemma {:induction false} StoreBytesKeep(ram: Ram, base: nat, fields: seq<Field>, a: nat)
    requires a < ram.Size()
    requires forall j :: 0 <= j < |fields| ==> base + fields[j].offset != a
    ensures var r := StoreBytes(ram, base, fields);
            r.Some? ==> r.value.bytes[a] == ram.bytes[a]
    decreases |fields|
  {
    if fields != [] && StoreBytes(ram, base, fields).Some? {
      var b := base + fields[0].offset;
      StoreBytesKeep(RamLayout(ram.bytes[b := fields[0].value], ram.loSize), base, fields[1..], a);
    }
  }

  /** dsWriteProt: 0xff for a read-only drive, 0 otherwise. */
  function WriteProtByte(d: Drive): Byte {
    if d.readOnly then 0xff else 0
  }

  /** The byte fields of the drive status record SonyOpen fills in: an 800K
      double-sided drive with a disk in place, write-protected when the drive
      is read-only. */
  function StatusBytes(abi: Abi, d: Drive): seq<Field> {
    [Field(abi.dsInstalled, 1), Field(abi.dsSides, 0xff), Field(abi.dsTwoSideFmt, 0xff),
     Field(abi.dsMFMDrive, 0), Field(abi.dsMFMDisk, 0),
     Field(abi.dsDiskInPlace, 1), Field(abi.dsWriteProt, WriteProtByte(d))]
  }

  /** The status record at `d.status`: the drive type word, then the bytes.
      Nothing below the record changes. */
  function WriteStatusRecord(abi: Abi, ram: Ram, d: Drive): (r: Option<Ram>)
    ensures r.Some? ==> r.value.loSize == ram.loSize && r.value.Size() == ram.Size()
    ensures r.Some? ==> d.status <= ram.Size() && r.value.bytes[..d.status] == ram.bytes[..d.status]
  {
    var w0 :- RamWrite16(ram, d.status + abi.dsQType, abi.sony);
    LogicalWriteAbove(ram, d.status + abi.dsQType, Be16(abi.sony), d.status);
    StoreBytes(w0, d.status, StatusBytes(abi, d))
  }

  /** The stored status bytes hold disk-in-place 1 and the drive's write
      protection. */
  lemma StatusBytesReadBack(abi: Abi, ram: Ram, base: nat, d: Drive)
    requires abi.dsDiskInPlace != abi.dsWriteProt
    ensures var r := StoreBytes(ram, base, StatusBytes(abi, d));
            r.Some? ==> base + abi.dsWriteProt < r.value.Size()
                        && r.value.bytes[base + abi.dsWriteProt] == WriteProtByte(d)
                        && base + abi.dsDiskInPlace < r.value.Size()
                        && r.value.bytes[base + abi.dsDiskInPlace] == 1
  {
    var fs := StatusBytes(abi, d);
    assert fs[6] == Field(abi.dsWriteProt, WriteProtByte(d));
    assert fs[5] == Field(abi.dsDiskInPlace, 1);
    StoreBytesReadBack(ram, base, fs, 6);
    StoreBytesReadBack(ram, base, fs, 5);
  }

  /** The status record reads back disk-in-place 1 and the drive's write
      protection. */
  lemma StatusRecordReadBack(abi: Abi, ram: Ram, d: Drive, written: Ram)
    requires abi.dsDiskInPlace != abi.dsWriteProt
    requires WriteStatusRecord(abi, ram, d) == Some(written)
    ensures RecordShows(abi, written, d.status, d.readOnly)
  {
    var w0 := RamWrite16(ram, d.status + abi.dsQType, abi.sony).value;
    StatusRecordSteps(abi, ram, w0, d);
    StoredStatusBytes(abi, w0, d, written);
  }

  lemma StatusRecordSteps(abi: Abi, ram: Ram, w0: Ram, d: Drive)
    requires RamWrite16(ram, d.status + abi.dsQType, abi.sony) == Some(w0)
    ensures WriteStatusRecord(abi, ram, d) == StoreBytes(w0, d.status, StatusBytes(abi, d))
  {
  }

  lemma StoredStatusBytes(abi: Abi, w0: Ram, d: Drive, written: Ram)
    requires abi.dsDiskInPlace != abi.dsWriteProt
    requires StoreBytes(w0, d.status, StatusBytes(abi, d)) == Some(written)
    ensures RamRead8(written, d.status + abi.dsWriteProt) == Some(WriteProtByte(d))
    ensures RamRead8(written, d.status + abi.dsDiskInPlace) == Some(1)
  {
    StatusBytesReadBack(abi, w0, d.status, d);
  }

  /** qFlags with its low byte replaced by the driver version, 3 (System 8
      replaces a driver whose version is lower). */
  function DriverVersion(q: bv16): (r: bv16)
    ensures r & 0xff00 == q & 0xff00 && r & 0xff == 3
  {
    (q & 0xff00) | 3
  }

  /** SonyOpen's DCE set-up: dCtlPosition 0, and the driver version in
      qFlags. */
  function OpenDce(abi: Abi, ram: Ram, dce: nat): (r: Option<Ram>)
    ensures r.Some? ==> r.value.loSize == ram.loSize && r.value.Size() == ram.Size()
  {
    SetUpDce(ram, dce + abi.dCtlPosition, dce + abi.dCtlQFlags)
  }

  /** The DCE writes, with dCtlPosition at `p` and qFlags at `f`. */
  function SetUpDce(ram: Ram, p: nat, f: nat): (r: Option<Ram>)
    ensures r.Some? ==> r.value.loSize == ram.loSize && r.value.Size() == ram.Size()
  {
    var r0 :- RamWrite32(ram, p, 0);
    var q :- RamRead16(r0, f);
    RamWrite16(r0, f, DriverVersion(q))
  }

  /** After the DCE set-up, dCtlPosition reads 0 and qFlags reads its old
      high byte over the driver version. */
  lemma SetUpDceReadBack(ram: Ram, p: nat, f: nat)
    requires p + 4 <= f || f + 2 <= p
    ensures var r := SetUpDce(ram, p, f);
            r.Some? ==> && RamRead32(r.value, p) == Some(0)
                        && RamRead16(ram, f).Some?
                        && RamRead16(r.value, f) == Some(DriverVersion(RamRead16(ram, f).value))
  {
    var r := SetUpDce(ram, p, f);
    if r.Some? {
      var r0 := RamWrite32(ram, p, 0).value;
      var q := RamRead16(r0, f).value;
      assert r == RamWrite16(r0, f, DriverVersion(q));
      OpenDceSteps(ram, r0, r.value, p, f, q);
    }
  }

  lemma OpenDceSteps(ram: Ram, r0: Ram, r1: Ram, p: nat, f: nat, q: bv16)
    requires p + 4 <= f || f + 2 <= p
    requires RamWrite32(ram, p, 0) == Some(r0)
    requires RamRead16(r0, f) == Some(q)
    requires RamWrite16(r0, f, DriverVersion(q)) == Some(r1)
    ensures RamRead32(r1, p) == Some(0)
    ensures RamRead16(ram, f) == Some(q)
    ensures RamRead16(r1, f) == Some(DriverVersion(q))
  {
    RamRead16Frame(ram, p, Be32(0), f);
    RamWriteRead16(r0, f, DriverVersion(q));
    RamWriteRead32(ram, p, 0);
    RamRead32Frame(r0, f, Be16(DriverVersion(q)), p);
  }

  /** Drive 0 as SonyOpen installs it: the first free drive number from 1
      on, its status record at `status`, flagged for mounting. */
  function OpenedDrive(d: Drive, queue: seq<int>, status: nat): (r: Drive)
    ensures r == d.(num := r.num, status := status, toBeMounted := true)
    ensures r.num >= 1 && IsDriveNumberFree(queue, r.num)
    ensures forall m :: 1 <= m < r.num ==> !IsDriveNumberFree(queue, m)
  {
    d.(num := FindFreeDriveNumber(queue, 1), status := status, toBeMounted := true)
  }

  /** SonyOpen: set up the DCE, plant the fake SonyVars pointer, clear
      DskErr, and install drive 0 with its status record at `status`.  It
      always reports noErr; the parameter block is unused. */
  function SonyOpen(abi: Abi, drives: Drives, ram: Ram, dce: nat, status: nat, queue: seq<int>): (r: Option<Outcome>)
    ensures r.Some? ==> r.value.code == abi.noErr && !r.value.ejected
    ensures r.Some? ==> r.value.drives == drives[0 := OpenedDrive(drives[0], queue, status)]
  {
    match OpenGlobals(abi, ram, dce)
    case None => None
    case Some(r3) =>
      var d := OpenedDrive(drives[0], queue, status);
      match WriteStatusRecord(abi, r3, d)
      case None => None
      case Some(r4) => Some(Outcome(r4, drives[0 := d], abi.noErr, false))
  }

  /** The writes SonyOpen makes before the status record: the DCE, the fake
      SonyVars, and DskErr cleared. */
  function OpenGlobals(abi: Abi, ram: Ram, dce: nat): (r: Option<Ram>)
    ensures r.Some? ==> r.value.loSize == ram.loSize && r.value.Size() == ram.Size()
    ensures r.Some? ==> RamRead16(r.value, DSK_ERR) == Some(Word16(0))
  {
    var r1 :- OpenDce(abi, ram, dce);
    var r2 :- RamWrite32(r1, SONY_VARS, SONY_VARS_MAGIC);
    SetDskErr(r2, 0)
  }

  /** The RAM SonyOpen leaves is OpenGlobals' followed by the status record. */
  lemma SonyOpenSteps(abi: Abi, drives: Drives, ram: Ram, dce: nat, status: nat, queue: seq<int>)
    ensures var r := SonyOpen(abi, drives, ram, dce, status, queue);
            r.Some? ==> && OpenGlobals(abi, ram, dce).Some?
                        && WriteStatusRecord(abi, OpenGlobals(abi, ram, dce).value, OpenedDrive(drives[0], queue, status)) == Some(r.value.ram)
  {}

  /** With the status record above DskErr, SonyOpen leaves noErr in DskErr. */
  lemma OpenMirrored(abi: Abi, drives: Drives, ram: Ram, dce: nat, status: nat, queue: seq<int>)
    requires abi.Valid() && DSK_ERR + 2 <= status
    ensures var r := SonyOpen(abi, drives, ram, dce, status, queue);
            r.Some? ==> Mirrored(r.value)
  {
    var r := SonyOpen(abi, drives, ram, dce, status, queue);
    if r.Some? {
      SonyOpenSteps(abi, drives, ram, dce, status, queue);
      RamRead16Below(r.value.ram, OpenGlobals(abi, ram, dce).value, status, DSK_ERR);
    }
  }

  /** A status record at `at` that reads disk-in-place 1 and write
      protection 0xff for a read-only drive, 0 otherwise. */
  predicate RecordShows(abi: Abi, ram: Ram, at: nat, readOnly: bool) {
    && RamRead8(ram, at + abi.dsWriteProt) == Some(if readOnly then 0xff else 0)
    && RamRead8(ram, at + abi.dsDiskInPlace) == Some(1)
  }

  /** SonyOpen marks the disk in place and write-protects it exactly when the
      drive is read-only. */
  lemma OpenStatusRecord(abi: Abi, drives: Drives, ram: Ram, dce: nat, status: nat, queue: seq<int>)
    requires abi.Valid()
    ensures var r := SonyOpen(abi, drives, ram, dce, status, queue);
            r.Some? ==> RecordShows(abi, r.value.ram, status, drives[0].readOnly)
  {
    var r := SonyOpen(abi, drives, ram, dce, status, queue);
    if r.Some? {
      SonyOpenSteps(abi, drives, ram, dce, status, queue);
      var d := OpenedDrive(drives[0], queue, status);
      assert d.status == status && d.readOnly == drives[0].readOnly;
      StatusRecordReadBack(abi, OpenGlobals(abi, ram, dce).value, d, r.value.ram);
    }
  }

  /** A long whose low nine bits are clear, which is what SonyPrime's mask
      test accepts, is a whole number of sectors. */
  lemma Mask512(x: bv32)
    requires (x & 0x1ff) == 0
    ensures x as nat % SECTOR == 0
  {
    ClearLowBits(x);
    SectorMultiple(x, x >> 9);
  }

  lemma ClearLowBits(x: bv32)
    requires (x & 0x1ff) == 0
    ensures x >> 9 < 0x80_0000 && x == (x >> 9) << 9
  {}

  lemma SectorMultiple(x: bv32, q: bv32)
    requires q < 0x80_0000 && x == q << 9
    ensures x as nat % SECTOR == 0
  {
    ShiftIsProduct(q);
  }

  lemma ShiftIsProduct(q: bv32)
    requires q < 0x80_0000
    ensures (q << 9) as nat == q as nat * SECTOR
  {}
}
