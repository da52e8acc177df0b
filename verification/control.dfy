/** The .Sony driver's Control and Status calls (SonyControl, SonyStatus in
    src/disc.c).  Both read csCode from the parameter block, look the drive
    up by ioVRefNum and end, like every driver call, by storing their code
    in DskErr. */
module DriverCalls {
  import opened Maybe
  import opened MachHw
  import opened Disc
  import opened Sony

  /** The code KillIO and accRun answer: neither is supported. */
  const UNSUPPORTED: int := -1

  /** Control 23 (drive info): an internal or an external SuperDrive. */
  const INTERNAL_DRIVE: bv32 := 0x0004
  const EXTERNAL_DRIVE: bv32 := 0x0104

  /** Status 6 (format list): one format of 2880 sectors, double density,
      two heads, 18 sectors a track, 80 tracks. */
  const FORMAT_SECTORS: bv32 := 2880
  const FORMAT_FLAGS: bv32 := 0xd212_0050

  /** Status 8 copies this many bytes of the drive status record. */
  const STATUS_RECORD_SIZE: nat := 22

  /** Status 10: the disk type long (a SWIM2 controller). */
  const DISK_TYPE: bv32 := 0xfe

  /** Status 'SC': the address-header format byte (500 kbit/s MFM). */
  const HEADER_FORMAT: Byte := 0x02

  // ---------------------------------------------------------------------------
  // SonyControl

  /** What every Control outcome satisfies: DskErr mirrors the code, the code
      is one Control can return, the drives are untouched, and an ejection
      is reported only with noErr. */
  predicate ControlOutcome(abi: Abi, drives: Drives, o: Outcome) {
    && Mirrored(o)
    && o.code in {UNSUPPORTED, abi.noErr, abi.nsDrvErr, abi.offLinErr, abi.wPrErr, abi.controlErr}
    && o.drives == drives
    && (o.ejected ==> o.code == abi.noErr)
  }

  /** The general Control codes, answered before any drive is looked up. */
  predicate IsGeneralControl(code: bv16) {
    code == 1 || code == 9 || code == 65
  }

  function SonyControl(abi: Abi, drives: Drives, ram: Ram, pb: nat): (r: Option<Outcome>)
    ensures r.Some? ==> ControlOutcome(abi, drives, r.value)
  {
    ControlCall(abi, drives, ram, pb + abi.csCode, pb + abi.ioVRefNum, pb + abi.csParam)
  }

  /** SonyControl with the parameter block's csCode, ioVRefNum and csParam
      at `codeAt`, `vrefAt` and `param`. */
  function ControlCall(abi: Abi, drives: Drives, ram: Ram, codeAt: nat, vrefAt: nat, param: nat): (r: Option<Outcome>)
    ensures r.Some? ==> ControlOutcome(abi, drives, r.value)
  {
    var code :- RamRead16(ram, codeAt);
    if code == 1 || code == 65 then Finish(ram, drives, UNSUPPORTED, false)
    else if code == 9 then Finish(ram, drives, abi.noErr, false)
    else
      var vref :- RamRead16(ram, vrefAt);
      match GetDriveInfo(drives, vref as int)
      case None => Finish(ram, drives, abi.nsDrvErr, false)
      case Some(i) =>
        ControlDrive(abi, drives, drives[i], ram, param, drives[i].status + abi.dsDiskInPlace, code)
  }

  /** The drive-specific Control codes, for drive `d` with csParam at `param`
      and its disk-in-place byte at `inPlace`. */
  function ControlDrive(abi: Abi, drives: Drives, d: Drive, ram: Ram, param: nat, inPlace: nat, code: bv16): (r: Option<Outcome>)
    ensures r.Some? ==> ControlOutcome(abi, drives, r.value)
    ensures r.Some? ==> r.value.code in {abi.noErr, abi.offLinErr, abi.wPrErr, abi.controlErr}
  {
    if code == 5 then VerifyDisk(abi, drives, ram, inPlace)
    else if code == 6 then Finish(ram, drives, if d.readOnly then abi.wPrErr else abi.offLinErr, false)
    else if code == 7 then EjectDisk(abi, drives, ram, inPlace)
    else if code == 8 then Finish(ram, drives, abi.noErr, false)
    else if code == 23 then GetDriveKind(abi, drives, ram, param, d.num)
    else Finish(ram, drives, abi.controlErr, false)
  }

  /** Control 5: verify is offLinErr without a disk in place, else noErr. */
  function VerifyDisk(abi: Abi, drives: Drives, ram: Ram, inPlace: nat): (r: Option<Outcome>)
    ensures r.Some? ==> Mirrored(r.value) && r.value.drives == drives && !r.value.ejected
    ensures r.Some? ==> inPlace < ram.Size() && r.value.code == if ram.bytes[inPlace] == 0 then abi.offLinErr else abi.noErr
  {
    var b :- RamRead8(ram, inPlace);
    Finish(ram, drives, if b == 0 then abi.offLinErr else abi.noErr, false)
  }

  /** Control 7: eject whatever disk is in place; always noErr. */
  function EjectDisk(abi: Abi, drives: Drives, ram: Ram, inPlace: nat): (r: Option<Outcome>)
    ensures r.Some? ==> Mirrored(r.value) && r.value.drives == drives && r.value.code == abi.noErr
  {
    var e :- Eject(ram, inPlace);
    Finish(e.0, drives, abi.noErr, e.1)
  }

  /** Control 23: the drive kind goes to csParam. */
  function GetDriveKind(abi: Abi, drives: Drives, ram: Ram, param: nat, num: int): (r: Option<Outcome>)
    ensures r.Some? ==> Mirrored(r.value) && r.value.drives == drives && r.value.code == abi.noErr && !r.value.ejected
  {
    var w :- RamWrite32(ram, param, DriveKind(num));
    Finish(w, drives, abi.noErr, false)
  }

  /** Control 23's answer: drive 1 is the internal drive. */
  function DriveKind(num: int): (r: bv32)
    ensures r == INTERNAL_DRIVE <==> num == 1
    ensures r == EXTERNAL_DRIVE <==> num != 1
  {
    if num == 1 then INTERNAL_DRIVE else EXTERNAL_DRIVE
  }

  /** Clearing the disk-in-place byte at `at`, as Control 7 does when a disk
      is present, reporting the ejection.  Either way the byte ends at 0 and
      nothing else changes. */
  function Eject(ram: Ram, at: nat): (r: Option<(Ram, bool)>)
    ensures r.Some? <==> at < ram.Size()
    ensures r.Some? ==> r.value.0 == RamLayout(ram.bytes[at := 0], ram.loSize)
    ensures r.Some? ==> (r.value.1 <==> ram.bytes[at] != 0)
  {
    var inPlace :- RamRead8(ram, at);
    if inPlace == 0 then
      assert ram.bytes[at := 0] == ram.bytes;
      Some((ram, false))
    else
      // the byte was just read, so it can be written
      RamWrite8Update(ram, at, 0);
      Some((RamWrite8(ram, at, 0).value, true))
  }

  /** A second ejection finds no disk: it reports nothing and changes nothing. */
  lemma EjectTwice(ram: Ram, at: nat)
    requires at < ram.Size()
    ensures var w := Eject(ram, at).value.0;
            Eject(w, at) == Some((w, false))
  {
    var w := Eject(ram, at).value.0;
    assert w.bytes[at] == 0;
    assert w.bytes[at := 0] == w.bytes;
  }

  /** The general codes are answered before the drive lookup: the result
      depends on neither ioVRefNum nor the drives. */
  lemma GeneralControl(abi: Abi, drives: Drives, ram: Ram, codeAt: nat, vrefAt: nat, param: nat)
    requires RamRead16(ram, codeAt).Some? && IsGeneralControl(RamRead16(ram, codeAt).value)
    ensures ControlCall(abi, drives, ram, codeAt, vrefAt, param)
            == Finish(ram, drives, if RamRead16(ram, codeAt).value == 9 then abi.noErr else UNSUPPORTED, false)
  {
  }

  /** Control reports nsDrvErr exactly when the code is drive-specific and no
      drive has the requested number. */
  lemma ControlNoDrive(abi: Abi, drives: Drives, ram: Ram, codeAt: nat, vrefAt: nat, param: nat)
    requires abi.Valid()
    ensures var r := ControlCall(abi, drives, ram, codeAt, vrefAt, param);
            r.Some? ==>
              (r.value.code == abi.nsDrvErr
               <==> && !IsGeneralControl(RamRead16(ram, codeAt).value)
                    && GetDriveInfo(drives, RamRead16(ram, vrefAt).value as int).None?)
  {
  }

  /** controlErr answers exactly the drive-specific codes Control does not
      know. */
  lemma ControlUnknownCode(abi: Abi, drives: Drives, d: Drive, ram: Ram, param: nat, inPlace: nat, code: bv16)
    requires abi.Valid()
    ensures var r := ControlDrive(abi, drives, d, ram, param, inPlace, code);
            r.Some? ==> (r.value.code == abi.controlErr <==> code !in {5, 6, 7, 8, 23})
  {
  }

  /** Control 7 reports an ejection exactly when the disk-in-place byte was
      nonzero, and leaves that byte at 0. */
  lemma EjectDiskClears(abi: Abi, drives: Drives, ram: Ram, inPlace: nat)
    requires inPlace + 1 <= DSK_ERR || DSK_ERR + 2 <= inPlace
    ensures var r := EjectDisk(abi, drives, ram, inPlace);
            r.Some? ==> && inPlace < ram.Size()
                        && (r.value.ejected <==> ram.bytes[inPlace] != 0)
                        && RamRead8(r.value.ram, inPlace) == Some(0)
  {
    var r := EjectDisk(abi, drives, ram, inPlace);
    if r.Some? {
      var e := Eject(ram, inPlace).value;
      assert r == Finish(e.0, drives, abi.noErr, e.1);
      SetDskErrFrame8(e.0, abi.noErr, inPlace);
    }
  }

  /** Control 23 leaves the drive kind in csParam. */
  lemma DriveKindReadBack(abi: Abi, drives: Drives, ram: Ram, param: nat, num: int)
    requires param + 4 <= DSK_ERR || DSK_ERR + 2 <= param
    ensures var r := GetDriveKind(abi, drives, ram, param, num);
            r.Some? ==> RamRead32(r.value.ram, param) == Some(DriveKind(num))
  {
    var r := GetDriveKind(abi, drives, ram, param, num);
    if r.Some? {
      var w := RamWrite32(ram, param, DriveKind(num)).value;
      RamWriteRead32(ram, param, DriveKind(num));
      SetDskErrFrame32(w, abi.noErr, param);
    }
  }

  // ---------------------------------------------------------------------------
  // SonyStatus

  /** What every Status outcome satisfies: DskErr mirrors the code, the code
      is one Status can return, and the drives are untouched. */
  predicate StatusOutcome(abi: Abi, drives: Drives, o: Outcome) {
    && Mirrored(o)
    && o.code in {abi.noErr, abi.nsDrvErr, abi.paramErr, abi.statusErr}
    && o.drives == drives
    && !o.ejected
  }

  function SonyStatus(abi: Abi, drives: Drives, ram: Ram, pb: nat): (r: Option<Outcome>)
    ensures r.Some? ==> StatusOutcome(abi, drives, r.value)
  {
    StatusCall(abi, drives, ram, pb + abi.csCode, pb + abi.ioVRefNum, pb + abi.csParam)
  }

  /** SonyStatus with csCode, ioVRefNum and csParam at `codeAt`, `vrefAt`
      and `param`. */
  function StatusCall(abi: Abi, drives: Drives, ram: Ram, codeAt: nat, vrefAt: nat, param: nat): (r: Option<Outcome>)
    ensures r.Some? ==> StatusOutcome(abi, drives, r.value)
  {
    var code :- RamRead16(ram, codeAt);
    var vref :- RamRead16(ram, vrefAt);
    match GetDriveInfo(drives, vref as int)
    case None => Finish(ram, drives, abi.nsDrvErr, false)
    case Some(i) => StatusDrive(abi, drives, drives[i], ram, param, code)
  }

  /** The Status codes, for drive `d` with csParam at `param`. */
  function StatusDrive(abi: Abi, drives: Drives, d: Drive, ram: Ram, param: nat, code: bv16): (r: Option<Outcome>)
    ensures r.Some? ==> StatusOutcome(abi, drives, r.value)
    ensures r.Some? ==> r.value.code in {abi.noErr, abi.paramErr, abi.statusErr}
  {
    if code == 6 then GetFormats(abi, drives, ram, param)
    else if code == 8 then
      var w :- StatusCopy(ram, param, d.status);
      Finish(w, drives, abi.noErr, false)
    else if code == 10 then
      var w :- RamWrite32(ram, param, DISK_TYPE);
      Finish(w, drives, abi.noErr, false)
    else if code == 0x5343 then
      var w :- RamWrite8(ram, param, HEADER_FORMAT);
      Finish(w, drives, abi.noErr, false)
    else
      Finish(ram, drives, abi.statusErr, false)
  }

  /** Status reports nsDrvErr exactly when no drive has the requested
      number; unlike Control, no code is answered before the lookup. */
  lemma StatusNoDrive(abi: Abi, drives: Drives, ram: Ram, codeAt: nat, vrefAt: nat, param: nat)
    requires abi.Valid()
    ensures var r := StatusCall(abi, drives, ram, codeAt, vrefAt, param);
            r.Some? ==> (r.value.code == abi.nsDrvErr
                         <==> GetDriveInfo(drives, RamRead16(ram, vrefAt).value as int).None?)
  {
  }

  /** statusErr answers exactly the codes Status does not know. */
  lemma StatusUnknownCode(abi: Abi, drives: Drives, d: Drive, ram: Ram, param: nat, code: bv16)
    requires abi.Valid()
    ensures var r := StatusDrive(abi, drives, d, ram, param, code);
            r.Some? ==> (r.value.code == abi.statusErr <==> code !in {6, 8, 10, 0x5343})
  {
  }

  /** Status 10 and 'SC' leave the disk type and the header format byte in
      csParam. */
  lemma StatusConstantsReadBack(abi: Abi, drives: Drives, d: Drive, ram: Ram, param: nat)
    requires param + 4 <= DSK_ERR || DSK_ERR + 2 <= param
    ensures var r := StatusDrive(abi, drives, d, ram, param, 10);
            r.Some? ==> RamRead32(r.value.ram, param) == Some(DISK_TYPE)
    ensures var r := StatusDrive(abi, drives, d, ram, param, 0x5343);
            r.Some? ==> RamRead8(r.value.ram, param) == Some(HEADER_FORMAT)
  {
    var r := StatusDrive(abi, drives, d, ram, param, 10);
    if r.Some? {
      var w := RamWrite32(ram, param, DISK_TYPE).value;
      RamWriteRead32(ram, param, DISK_TYPE);
      SetDskErrFrame32(w, abi.noErr, param);
    }
    var h := StatusDrive(abi, drives, d, ram, param, 0x5343);
    if h.Some? {
      var w := RamWrite8(ram, param, HEADER_FORMAT).value;
      RamWriteRead8(ram, param, HEADER_FORMAT);
      SetDskErrFrame8(w, abi.noErr, param);
    }
  }

  /** Status 6: with a nonzero requested count the format list is written,
      otherwise paramErr. */
  function GetFormats(abi: Abi, drives: Drives, ram: Ram, param: nat): (r: Option<Outcome>)
    ensures r.Some? ==> Mirrored(r.value) && r.value.drives == drives && !r.value.ejected
    ensures r.Some? ==> RamRead16(ram, param).Some?
                        && r.value.code == if RamRead16(ram, param).value == 0 then abi.paramErr else abi.noErr
  {
    var count :- RamRead16(ram, param);
    if count == 0 then Finish(ram, drives, abi.paramErr, false)
    else
      var w :- FormatList(ram, param);
      Finish(w, drives, abi.noErr, false)
  }

  /** Status 6's list: its address is the long after the count; the count
      becomes 1 and the list gets the one format.  The address is used as
      read, top byte included. */
  function FormatList(ram: Ram, param: nat): (r: Option<Ram>)
    ensures r.Some? ==> r.value.loSize == ram.loSize && r.value.Size() == ram.Size()
  {
    var adr :- RamRead32(ram, param + 2);
    var w :- RamWrite16(ram, param, 1);
    FormatEntry(w, adr as nat)
  }

  /** The format entry at `at`: the sector count, then the flags.  (The C
      sum `adr + 4` is 32-bit, but any `adr` it would wrap for already lies
      outside RAM, so the first store fails first.) */
  function FormatEntry(ram: Ram, at: nat): (r: Option<Ram>)
    ensures r.Some? ==> r.value.loSize == ram.loSize && r.value.Size() == ram.Size()
  {
    var w :- RamWrite32(ram, at, FORMAT_SECTORS);
    RamWrite32(w, at + 4, FORMAT_FLAGS)
  }

  /** The format entry reads back; a word outside it is kept. */
  lemma FormatEntryReadBack(ram: Ram, at: nat, y: nat)
    requires y + 2 <= at || at + 8 <= y
    ensures var r := FormatEntry(ram, at);
            r.Some? ==> && RamRead32(r.value, at) == Some(FORMAT_SECTORS)
                        && RamRead32(r.value, at + 4) == Some(FORMAT_FLAGS)
                        && RamRead16(r.value, y) == RamRead16(ram, y)
  {
    var r := FormatEntry(ram, at);
    if r.Some? {
      var w := RamWrite32(ram, at, FORMAT_SECTORS).value;
      FormatEntrySteps(ram, w, r.value, at, y);
    }
  }

  lemma FormatEntrySteps(ram: Ram, w: Ram, r: Ram, at: nat, y: nat)
    requires y + 2 <= at || at + 8 <= y
    requires RamWrite32(ram, at, FORMAT_SECTORS) == Some(w)
    requires RamWrite32(w, at + 4, FORMAT_FLAGS) == Some(r)
    ensures RamRead32(r, at) == Some(FORMAT_SECTORS)
    ensures RamRead32(r, at + 4) == Some(FORMAT_FLAGS)
    ensures RamRead16(r, y) == RamRead16(ram, y)
  {
    TwoLongsRead(ram, w, r, at, FORMAT_SECTORS, FORMAT_FLAGS);
    TwoLongsFrame(ram, w, r, at, FORMAT_SECTORS, FORMAT_FLAGS, y);
  }

  /** Two consecutive long stores read back. */
  lemma TwoLongsRead(ram: Ram, w: Ram, r: Ram, at: nat, a: bv32, b: bv32)
    requires RamWrite32(ram, at, a) == Some(w)
    requires RamWrite32(w, at + 4, b) == Some(r)
    ensures RamRead32(r, at) == Some(a)
    ensures RamRead32(r, at + 4) == Some(b)
  {
    RamWriteRead32(ram, at, a);
    RamWriteRead32(w, at + 4, b);
    RamRead32Frame(w, at + 4, Be32(b), at);
  }

  /** Two consecutive long stores keep a word at `y` outside them. */
  lemma TwoLongsFrame(ram: Ram, w: Ram, r: Ram, at: nat, a: bv32, b: bv32, y: nat)
    requires y + 2 <= at || at + 8 <= y
    requires RamWrite32(ram, at, a) == Some(w)
    requires RamWrite32(w, at + 4, b) == Some(r)
    ensures RamRead16(r, y) == RamRead16(ram, y)
  {
    TwoWritesFrame(ram, at, Be32(a), Be32(b), y);
  }

  lemma TwoWritesFrame(ram: Ram, at: nat, d1: seq<Byte>, d2: seq<Byte>, y: nat)
    requires |d1| == 4 && at + 4 + |d2| <= ram.Size()
    requires y + 2 <= at || at + 4 + |d2| <= y
    ensures RamRead16(LogicalWrite(LogicalWrite(ram, at, d1), at + 4, d2), y) == RamRead16(ram, y)
  {
    var w := LogicalWrite(ram, at, d1);
    var r := LogicalWrite(w, at + 4, d2);
    if y + 2 <= ram.Size() {
      LogicalWriteFrame(ram, at, d1, y, 2);
      LogicalWriteFrame(w, at + 4, d2, y, 2);
    }
    RamRead16Same(r, ram, y);
  }

  /** After FormatList the count reads 1 and the entry at the list address
      reads back. */
  lemma FormatListReadBack(ram: Ram, param: nat, adr: nat)
    requires RamRead32(ram, param + 2).Some? && adr == RamRead32(ram, param + 2).value as nat
    requires param + 2 <= adr || adr + 8 <= param
    ensures var r := FormatList(ram, param);
            r.Some? ==> && RamRead16(r.value, param) == Some(1)
                        && RamRead32(r.value, adr) == Some(FORMAT_SECTORS)
                        && RamRead32(r.value, adr + 4) == Some(FORMAT_FLAGS)
  {
    var r := FormatList(ram, param);
    if r.Some? {
      var w := RamWrite16(ram, param, 1).value;
      assert r == FormatEntry(w, adr);
      RamWriteRead16(ram, param, 1);
      FormatEntryReadBack(w, adr, param);
    }
  }

  /** Status 6 with a nonzero count leaves count 1 and the format entry, and
      DskErr lies outside both. */
  lemma GetFormatsReadBack(abi: Abi, drives: Drives, ram: Ram, param: nat, adr: nat)
    requires RamRead32(ram, param + 2).Some? && adr == RamRead32(ram, param + 2).value as nat
    requires param + 2 <= adr || adr + 8 <= param
    requires adr + 8 <= DSK_ERR || DSK_ERR + 2 <= adr
    requires param + 2 <= DSK_ERR || DSK_ERR + 2 <= param
    ensures var r := GetFormats(abi, drives, ram, param);
            r.Some? && RamRead16(ram, param) != Some(0) ==>
              && RamRead16(r.value.ram, param) == Some(1)
              && RamRead32(r.value.ram, adr) == Some(FORMAT_SECTORS)
              && RamRead32(r.value.ram, adr + 4) == Some(FORMAT_FLAGS)
  {
    var r := GetFormats(abi, drives, ram, param);
    if r.Some? && RamRead16(ram, param) != Some(0) {
      GetFormatsSteps(abi, drives, ram, param);
      var f := FormatList(ram, param).value;
      FormatListReadBack(ram, param, adr);
      KeptByDskErr16(f, abi.noErr, param);
      KeptByDskErr32(f, abi.noErr, adr);
      KeptByDskErr32(f, abi.noErr, adr + 4);
    }
  }

  /** A word that set_dsk_err does not overlap reads the same afterwards. */
  lemma KeptByDskErr16(f: Ram, code: int, x: nat)
    requires x + 2 <= DSK_ERR || DSK_ERR + 2 <= x
    requires SetDskErr(f, code).Some?
    ensures RamRead16(SetDskErr(f, code).value, x) == RamRead16(f, x)
  {
    SetDskErrFrame16(f, code, x);
  }

  /** A long that set_dsk_err does not overlap reads the same afterwards. */
  lemma KeptByDskErr32(f: Ram, code: int, x: nat)
    requires x + 4 <= DSK_ERR || DSK_ERR + 2 <= x
    requires SetDskErr(f, code).Some?
    ensures RamRead32(SetDskErr(f, code).value, x) == RamRead32(f, x)
  {
    SetDskErrFrame32(f, code, x);
  }

  /** A successful Status 6 with a nonzero count is the format list followed
      by set_dsk_err(noErr). */
  lemma GetFormatsSteps(abi: Abi, drives: Drives, ram: Ram, param: nat)
    ensures var r := GetFormats(abi, drives, ram, param);
            r.Some? && RamRead16(ram, param) != Some(0) ==>
              && FormatList(ram, param).Some?
              && r.value.ram == SetDskErr(FormatList(ram, param).value, abi.noErr).value
  {
  }

  /** Status 8: memcpy of the status record to csParam, both located through
      ram_get_base with no 24-bit mask. */
  function StatusCopy(ram: Ram, dst: nat, src: nat): (r: Option<Ram>)
    ensures r.Some? ==> r.value.loSize == ram.loSize && r.value.Size() == ram.Size()
  {
    var bytes :- HostRead(ram, RamGetBase(ram, src), STATUS_RECORD_SIZE);
    HostWrite(ram, RamGetBase(ram, dst), bytes)
  }

  /** The copy succeeds exactly when both records lie inside one host buffer
      each, and is then the logical copy of the 22 bytes from `src` to `dst`. */
  lemma StatusCopyCopies(ram: Ram, dst: nat, src: nat)
    ensures var r := StatusCopy(ram, dst, src);
            r.Some? <==> Fits(ram, RamGetBase(ram, src), STATUS_RECORD_SIZE)
                         && Fits(ram, RamGetBase(ram, dst), STATUS_RECORD_SIZE)
    ensures var r := StatusCopy(ram, dst, src);
            r.Some? ==> && src + STATUS_RECORD_SIZE <= ram.Size() && dst + STATUS_RECORD_SIZE <= ram.Size()
                        && r.value == LogicalWrite(ram, dst, ram.bytes[src..src + STATUS_RECORD_SIZE])
  {
    if Fits(ram, RamGetBase(ram, src), STATUS_RECORD_SIZE) {
      HostReadIsLogical(ram, src, STATUS_RECORD_SIZE);
      if Fits(ram, RamGetBase(ram, dst), STATUS_RECORD_SIZE) {
        HostWriteIsLogical(ram, dst, ram.bytes[src..src + STATUS_RECORD_SIZE]);
      }
    }
  }

  /** Status 8 leaves a copy of the drive's status record at csParam. */
  lemma StatusDriveStatus(abi: Abi, drives: Drives, d: Drive, ram: Ram, param: nat)
    requires param + STATUS_RECORD_SIZE <= DSK_ERR || DSK_ERR + 2 <= param
    ensures var r := StatusDrive(abi, drives, d, ram, param, 8);
            r.Some? ==> && d.status + STATUS_RECORD_SIZE <= ram.Size()
                        && param + STATUS_RECORD_SIZE <= ram.Size()
                        && r.value.ram.bytes[param..param + STATUS_RECORD_SIZE]
                           == ram.bytes[d.status..d.status + STATUS_RECORD_SIZE]
  {
    var r := StatusDrive(abi, drives, d, ram, param, 8);
    if r.Some? {
      StatusCopySteps(abi, drives, d, ram, param);
      StatusCopyCopies(ram, param, d.status);
      var w := StatusCopy(ram, param, d.status).value;
      CopyThenDskErr(ram, w, r.value.ram, param, d.status, Be16(Word16(abi.noErr)));
    }
  }

  lemma StatusCopySteps(abi: Abi, drives: Drives, d: Drive, ram: Ram, param: nat)
    ensures var r := StatusDrive(abi, drives, d, ram, param, 8);
            r.Some? ==> && StatusCopy(ram, param, d.status).Some?
                        && r.value.ram == LogicalWrite(StatusCopy(ram, param, d.status).value, DSK_ERR,
                                                       Be16(Word16(abi.noErr)))
  {
  }

  /** A record copied to `param`, then DskErr written clear of it: the copy
      survives. */
  lemma CopyThenDskErr(ram: Ram, w: Ram, final: Ram, param: nat, src: nat, err: seq<Byte>)
    requires src + STATUS_RECORD_SIZE <= ram.Size() && param + STATUS_RECORD_SIZE <= ram.Size()
    requires w == LogicalWrite(ram, param, ram.bytes[src..src + STATUS_RECORD_SIZE])
    requires DSK_ERR + |err| <= w.Size() && final == LogicalWrite(w, DSK_ERR, err)
    requires param + STATUS_RECORD_SIZE <= DSK_ERR || DSK_ERR + |err| <= param
    ensures final.bytes[param..param + STATUS_RECORD_SIZE] == ram.bytes[src..src + STATUS_RECORD_SIZE]
  {
    OverwriteSlices(ram.bytes, param, ram.bytes[src..src + STATUS_RECORD_SIZE]);
    LogicalWriteFrame(w, DSK_ERR, err, param, STATUS_RECORD_SIZE);
  }
}
