/** The early exits of the .Sony driver's Prime routine (SonyPrime in
    src/disc.c): the error each one reports, and what Prime has already
    stored in the parameter block and the drive status record by then.
    Prime first zeroes ioActCount, then looks the drive up (nsDrvErr),
    checks the disk-in-place byte (offLinErr), sets that byte to 2, and
    checks the request (paramErr). */
module PrimePaths {
  import opened Maybe
  import opened MachHw
  import opened Disc
  import opened Sony

  /** Prime's first store: ioActCount set to 0. */
  function ActCleared(abi: Abi, ram: Ram, pb: nat): Option<Ram> {
    RamWrite32(ram, pb + abi.ioActCount, 0)
  }

  /** The drive number Prime looks up, read once ioActCount is cleared. */
  function VRefNum(abi: Abi, ram: Ram, pb: nat): Option<bv16> {
    var r0 :- ActCleared(abi, ram, pb);
    RamRead16(r0, pb + abi.ioVRefNum)
  }

  /** No drive answers to the number in ioVRefNum. */
  predicate NoDrive(abi: Abi, drives: Drives, ram: Ram, pb: nat) {
    var v := VRefNum(abi, ram, pb);
    v.Some? && GetDriveInfo(drives, v.value as int).None?
  }

  // ---------------------------------------------------------------------------
  // The first store

  /** The cleared ioActCount reads back as 0. */
  lemma ActClearedReadBack(abi: Abi, ram: Ram, pb: nat)
    ensures ActCleared(abi, ram, pb).Some? ==>
              RamRead32(ActCleared(abi, ram, pb).value, pb + abi.ioActCount) == Some(0)
  {
    if ActCleared(abi, ram, pb).Some? {
      RamWriteRead32(ram, pb + abi.ioActCount, 0);
    }
  }

  // ---------------------------------------------------------------------------
  // The drive lookup (nsDrvErr)

  /** Prime gets an outcome only once ioActCount is cleared and ioVRefNum read. */
  lemma SonyPrimeReadsVRefNum(abi: Abi, build: Build, drives: Drives, ram: Ram, pb: nat, dce: nat)
    ensures SonyPrime(abi, build, drives, ram, pb, dce).Some? ==> VRefNum(abi, ram, pb).Some?
  {
  }

  /** No drive with the number: Prime ends with nsDrvErr on the cleared RAM. */
  lemma SonyPrimeNoDriveStep(abi: Abi, build: Build, drives: Drives, ram: Ram, pb: nat, dce: nat, r0: Ram)
    requires ActCleared(abi, ram, pb) == Some(r0)
    requires NoDrive(abi, drives, ram, pb)
    ensures SonyPrime(abi, build, drives, ram, pb, dce) == Finish(r0, drives, abi.nsDrvErr, false)
  {
    if Finish(r0, drives, abi.nsDrvErr, false).Some? {
    }
  }

  /** Drive `i` has the number: Prime goes on with it on the cleared RAM. */
  lemma SonyPrimeDriveStep(abi: Abi, build: Build, drives: Drives, ram: Ram, pb: nat, dce: nat, r0: Ram, i: nat)
    requires ActCleared(abi, ram, pb) == Some(r0)
    requires VRefNum(abi, ram, pb).Some? && GetDriveInfo(drives, VRefNum(abi, ram, pb).value as int) == Some(i)
    ensures i < DISC_NUM_DRIVES
    ensures SonyPrime(abi, build, drives, ram, pb, dce) == PrimeDrive(abi, build, drives, i, r0, pb, dce)
  {
    if PrimeDrive(abi, build, drives, i, r0, pb, dce).Some? {
    }
  }

  /** When no drive has the number Prime reports nsDrvErr, in DskErr too,
      and leaves ioActCount at 0 unless it overlaps DskErr. */
  lemma SonyPrimeNoDrive(abi: Abi, build: Build, drives: Drives, ram: Ram, pb: nat, dce: nat)
    requires NoDrive(abi, drives, ram, pb)
    ensures var r := SonyPrime(abi, build, drives, ram, pb, dce);
            r.Some? ==> && r.value.code == abi.nsDrvErr && Mirrored(r.value)
                        && (LongClearOfWord(pb + abi.ioActCount, DSK_ERR) ==>
                              RamRead32(r.value.ram, pb + abi.ioActCount) == Some(0))
  {
    var r0 := ActCleared(abi, ram, pb).value;
    SonyPrimeNoDriveStep(abi, build, drives, ram, pb, dce, r0);
    ActClearedReadBack(abi, ram, pb);
    if LongClearOfWord(pb + abi.ioActCount, DSK_ERR) {
      SetDskErrFrame32(r0, abi.nsDrvErr, pb + abi.ioActCount);
    }
  }

  /** Prime reports nsDrvErr exactly when no drive has the number in
      ioVRefNum (the codes being distinct, as `Valid` states). */
  lemma SonyPrimeNsDrvErr(abi: Abi, build: Build, drives: Drives, ram: Ram, pb: nat, dce: nat)
    requires abi.Valid()
    ensures var r := SonyPrime(abi, build, drives, ram, pb, dce);
            r.Some? ==> (r.value.code == abi.nsDrvErr <==> NoDrive(abi, drives, ram, pb))
  {
    var r := SonyPrime(abi, build, drives, ram, pb, dce);
    if r.Some? {
      SonyPrimeReadsVRefNum(abi, build, drives, ram, pb, dce);
      var r0 := ActCleared(abi, ram, pb).value;
      match GetDriveInfo(drives, VRefNum(abi, ram, pb).value as int)
      case None =>
        SonyPrimeNoDriveStep(abi, build, drives, ram, pb, dce, r0);
      case Some(i) =>
        SonyPrimeDriveStep(abi, build, drives, ram, pb, dce, r0, i);
    }
  }

  // ---------------------------------------------------------------------------
  // The disk-in-place byte (offLinErr) and the request (paramErr)

  /** A zero disk-in-place byte: Prime reports offLinErr, in DskErr too,
      and leaves ioActCount at 0 unless it overlaps DskErr. */
  lemma SonyPrimeOffline(abi: Abi, build: Build, drives: Drives, ram: Ram, pb: nat, dce: nat, r0: Ram, i: nat)
    requires ActCleared(abi, ram, pb) == Some(r0)
    requires VRefNum(abi, ram, pb).Some? && GetDriveInfo(drives, VRefNum(abi, ram, pb).value as int) == Some(i)
    requires RamRead8(r0, (drives[i].status + abi.dsDiskInPlace)) == Some(0)
    ensures var r := SonyPrime(abi, build, drives, ram, pb, dce);
            r.Some? ==> && r.value.code == abi.offLinErr && Mirrored(r.value)
                        && (LongClearOfWord(pb + abi.ioActCount, DSK_ERR) ==>
                              RamRead32(r.value.ram, pb + abi.ioActCount) == Some(0))
  {
    SonyPrimeDriveStep(abi, build, drives, ram, pb, dce, r0, i);
    ActClearedReadBack(abi, ram, pb);
  }

  /** A rejected request: Prime reports paramErr, in DskErr too, after
      setting the disk-in-place byte to 2; the byte still reads 2 and
      ioActCount 0 unless they overlap DskErr or each other. */
  lemma SonyPrimeBadRequest(abi: Abi, build: Build, drives: Drives, ram: Ram, pb: nat, dce: nat, r0: Ram, i: nat)
    requires ActCleared(abi, ram, pb) == Some(r0)
    requires VRefNum(abi, ram, pb).Some? && GetDriveInfo(drives, VRefNum(abi, ram, pb).value as int) == Some(i)
    requires RamRead8(r0, (drives[i].status + abi.dsDiskInPlace)).Some? && RamRead8(r0, (drives[i].status + abi.dsDiskInPlace)) != Some(0)
    requires RamWrite8(r0, (drives[i].status + abi.dsDiskInPlace), 2).Some?
    requires RequestRejected(abi, |drives[i].image|, RamWrite8(r0, (drives[i].status + abi.dsDiskInPlace), 2).value, pb, dce)
    ensures var r := SonyPrime(abi, build, drives, ram, pb, dce);
            r.Some? ==> && r.value.code == abi.paramErr && Mirrored(r.value)
                        && (ByteClearOfWord((drives[i].status + abi.dsDiskInPlace), DSK_ERR) ==>
                              RamRead8(r.value.ram, (drives[i].status + abi.dsDiskInPlace)) == Some(2))
                        && (LongClearOfWord(pb + abi.ioActCount, DSK_ERR) &&
                            LongClearOfByte(pb + abi.ioActCount, (drives[i].status + abi.dsDiskInPlace)) ==>
                              RamRead32(r.value.ram, pb + abi.ioActCount) == Some(0))
  {
    SonyPrimeDriveStep(abi, build, drives, ram, pb, dce, r0, i);
    ActClearedReadBack(abi, ram, pb);
  }
}
