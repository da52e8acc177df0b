/** The 24-bit memory map, the host layout of guest RAM and the big-endian
    accessors of include/machw.h.

    RAM is held by the host in one or two buffers: `lo` (RAM_SIZE_LO bytes) and
    `hi` (RAM_SIZE_HI bytes, empty when the build does not split RAM).  The
    build-time sizes are therefore the lengths of the two buffers:
    RAM_SIZE = |lo| + |hi|.  A host access that would run past the end of its
    buffer, or a 16/32-bit access at an odd host offset (an `assert` that
    release builds compile out), is undefined in C and yields `None` here. */
module MachHw {
  import opened Maybe

  type Byte = bv8
  type Addr = bv32

  const ROM_ADDR: Addr := 0x40_0000
  const RAM_HIGH_ADDR: Addr := 0x60_0000
  /** Magic byte address through which the replacement disc driver calls out */
  const PV_SONY_ADDR: Addr := 0xc0_0069

  /** The 24 address lines of the 68000; the top byte of an address is ignored. */
  function Adr24(x: Addr): Addr {
    x & 0xff_ffff
  }

  /** An address that already fits in 24 bits is its own 24-bit address. */
  lemma Adr24Below(x: Addr)
    requires x as nat < 0x100_0000
    ensures Adr24(x) == x
  {
    assert x < 0x100_0000;
  }

  // ---------------------------------------------------------------------------
  // Region predicates

  predicate IsRom(x: Addr, overlay: bool) {
    (Adr24(x) & 0xf0_0000) == ROM_ADDR || (overlay && (Adr24(x) & 0xf0_0000) == 0)
  }

  predicate IsRam(x: Addr, overlay: bool) {
    (!overlay && (Adr24(x) & 0xc0_0000) == 0) || (Adr24(x) & 0xe0_0000) == RAM_HIGH_ADDR
  }

  predicate IsVia(x: Addr) {
    (Adr24(x) & 0xe8_0000) == 0xe8_0000
  }

  predicate IsIwm(x: Addr) {
    0xdf_e1ff <= Adr24(x) < 0xdf_e1ff + 0x2000
  }

  predicate IsSccRd(x: Addr) {
    (Adr24(x) & 0xf0_0000) == 0x90_0000
  }

  predicate IsSccWr(x: Addr) {
    (Adr24(x) & 0xf0_0000) == 0xb0_0000
  }

  predicate IsDummy(x: Addr) {
    (0x80_0000 <= Adr24(x) < 0x9f_fff8) || (Adr24(x) & 0xf0_0000) == 0x50_0000
  }

  predicate IsTestSw(x: Addr) {
    Adr24(x) >= 0xf0_0000
  }

  /** RAM and ROM never claim the same address, in either overlay state. */
  lemma RamRomDisjoint(x: Addr, overlay: bool)
    ensures !(IsRam(x, overlay) && IsRom(x, overlay))
  {
  }

  /** Every region test looks at the low 24 address bits only. */
  lemma RegionsIgnoreTopByte(x: Addr, overlay: bool)
    ensures IsRam(x, overlay) == IsRam(Adr24(x), overlay)
    ensures IsRom(x, overlay) == IsRom(Adr24(x), overlay)
    ensures IsVia(x) == IsVia(Adr24(x))
    ensures IsIwm(x) == IsIwm(Adr24(x))
    ensures IsSccRd(x) == IsSccRd(Adr24(x))
    ensures IsSccWr(x) == IsSccWr(Adr24(x))
    ensures IsDummy(x) == IsDummy(Adr24(x))
    ensures IsTestSw(x) == IsTestSw(Adr24(x))
  {
  }

  /** Reset layout: ROM at 0 and at 0x400000, RAM only at its 0x600000 alias. */
  lemma OverlayOnLayout(x: Addr)
    ensures IsRam(x, true) <==> 0x60_0000 <= Adr24(x) < 0x80_0000
    ensures IsRom(x, true) <==> Adr24(x) < 0x10_0000 || 0x40_0000 <= Adr24(x) < 0x50_0000
  {
  }

  /** Normal layout: RAM at 0 (and still at 0x600000), ROM only at 0x400000. */
  lemma OverlayOffLayout(x: Addr)
    ensures IsRam(x, false) <==> Adr24(x) < 0x40_0000 || 0x60_0000 <= Adr24(x) < 0x80_0000
    ensures IsRom(x, false) <==> 0x40_0000 <= Adr24(x) < 0x50_0000
  {
  }

  /** CLAMP_RAM_ADDR: wraps an address into RAM for any RAM size, power of two or not. */
  function ClampRamAddr(x: nat, size: nat): (r: nat)
    requires size > 0
    ensures r < size
    ensures r == x % size
    ensures x < size ==> r == x
  {
    if x >= size then x % size else x
  }

  // ---------------------------------------------------------------------------
  // Host layout of guest RAM

  /** Guest RAM: its logical contents, guest address 0 first, and RAM_SIZE_LO,
      the length of the low host buffer. The remaining bytes live in the high
      host buffer (RAM_SIZE_HI of them); a build with one buffer has
      `loSize == |bytes|`. */
  datatype RamLayout = RamLayout(bytes: seq<Byte>, loSize: nat) {
    /** RAM_SIZE */
    function Size(): nat {
      |bytes|
    }

    /** RAM_SIZE_HI > 0: the build splits RAM over two host buffers. */
    predicate IsSplit() {
      loSize < |bytes|
    }
  }

  type Ram = r: RamLayout | r.loSize <= |r.bytes| witness RamLayout([], 0)

  datatype Seg = Low | High

  /** A host pointer: an offset into one of the two host RAM buffers. */
  datatype HostPtr = HostPtr(seg: Seg, off: nat)

  /** Where a host buffer starts in logical RAM. */
  function SegStart(ram: Ram, s: Seg): nat {
    if s == Low then 0 else ram.loSize
  }

  /** The contents of one host buffer. */
  function Segment(ram: Ram, s: Seg): (r: seq<Byte>)
    ensures SegStart(ram, s) + |r| <= ram.Size()
  {
    if s == Low then ram.bytes[..ram.loSize] else ram.bytes[ram.loSize..]
  }

  /** ram_get_base: the host location of logical RAM address `addr`. */
  function RamGetBase(ram: Ram, addr: nat): (p: HostPtr)
    ensures p.off < |Segment(ram, p.seg)| <==> addr < ram.Size()
    ensures addr < ram.Size() ==> Segment(ram, p.seg)[p.off] == ram.bytes[addr]
  {
    if ram.IsSplit() && addr >= ram.loSize then HostPtr(High, addr - ram.loSize) else HostPtr(Low, addr)
  }

  /** Addresses below RAM_SIZE_LO live in the low buffer at the same offset, the
      rest of RAM in the high buffer, counted from RAM_SIZE_LO. */
  lemma RamGetBaseSegments(ram: Ram, addr: nat)
    requires addr < ram.Size()
    ensures addr < ram.loSize ==> RamGetBase(ram, addr) == HostPtr(Low, addr)
    ensures addr >= ram.loSize ==> RamGetBase(ram, addr) == HostPtr(High, addr - ram.loSize)
    ensures SegStart(ram, RamGetBase(ram, addr).seg) + RamGetBase(ram, addr).off == addr
  {
  }

  /** Distinct RAM addresses have distinct host locations. */
  lemma RamGetBaseInjective(ram: Ram, a: nat, b: nat)
    requires a < ram.Size() && b < ram.Size()
    requires RamGetBase(ram, a) == RamGetBase(ram, b)
    ensures a == b
  {
  }

  /** `n` bytes at host pointer `p` lie inside its buffer. */
  predicate Fits(ram: Ram, p: HostPtr, n: nat) {
    p.off + n <= |Segment(ram, p.seg)|
  }

  /** Reads `n` host bytes at `p` (memcpy source). */
  function HostRead(ram: Ram, p: HostPtr, n: nat): (r: Option<seq<Byte>>)
    ensures r.Some? <==> Fits(ram, p, n)
    ensures r.Some? ==> |r.value| == n
  {
    if Fits(ram, p, n) then Some(Segment(ram, p.seg)[p.off..p.off + n]) else None
  }

  /** `s` with the bytes from `a` on replaced by `data`, one byte after
      another: the effect of a copy into contiguous memory. */
  function Overwrite(s: seq<Byte>, a: nat, data: seq<Byte>): (r: seq<Byte>)
    requires a + |data| <= |s|
    ensures |r| == |s|
    decreases |data|
  {
    if data == [] then s else Overwrite(s[a := data[0]], a + 1, data[1..])
  }

  /** An overwrite puts `data` at `a` and keeps everything either side. */
  lemma {:induction false} OverwriteSlices(s: seq<Byte>, a: nat, data: seq<Byte>)
    requires a + |data| <= |s|
    ensures var r := Overwrite(s, a, data);
            r[..a] == s[..a] && r[a..a + |data|] == data && r[a + |data|..] == s[a + |data|..]
    decreases |data|
  {
    if data != [] {
      var s' := s[a := data[0]];
      var r := Overwrite(s, a, data);
      assert r == Overwrite(s', a + 1, data[1..]);
      OverwriteSlices(s', a + 1, data[1..]);
      assert r[..a] == r[..a + 1][..a];
      assert s'[..a] == s[..a];
      assert r[a..a + |data|] == [r[a]] + r[a + 1..a + |data|];
      assert r[a] == r[..a + 1][a];
      assert data == [data[0]] + data[1..];
      assert s'[a + |data|..] == s[a + |data|..];
    }
  }

  /** A sequence with the slices of an overwrite is that overwrite. */
  lemma OverwriteBySlices(s: seq<Byte>, a: nat, data: seq<Byte>, r: seq<Byte>)
    requires a + |data| <= |s| == |r|
    requires r[..a] == s[..a] && r[a..a + |data|] == data && r[a + |data|..] == s[a + |data|..]
    ensures r == Overwrite(s, a, data)
  {
    var o := Overwrite(s, a, data);
    OverwriteSlices(s, a, data);
    assert r == r[..a] + r[a..a + |data|] + r[a + |data|..];
    assert o == o[..a] + o[a..a + |data|] + o[a + |data|..];
  }

  /** Two adjacent overwrites are one overwrite of their concatenation. */
  lemma OverwriteAdjacent(s: seq<Byte>, a: nat, d1: seq<Byte>, d2: seq<Byte>)
    requires a + |d1| + |d2| <= |s|
    ensures Overwrite(Overwrite(s, a, d1), a + |d1|, d2) == Overwrite(s, a, d1 + d2)
  {
    var m := Overwrite(s, a, d1);
    var r := Overwrite(m, a + |d1|, d2);
    var e := a + |d1|;
    OverwriteSlices(s, a, d1);
    OverwriteSlices(m, e, d2);
    assert r[..a] == r[..e][..a];
    assert m[..a] == m[..e][..a];
    assert r[a..a + |d1| + |d2|] == r[a..e] + r[e..e + |d2|];
    assert r[a..e] == r[..e][a..];
    assert m[a..e] == m[..e][a..];
    assert r[e + |d2|..] == m[e + |d2|..];
    assert m[e + |d2|..] == m[e..][|d2|..];
    assert s[e + |d2|..] == s[e..][|d2|..];
    OverwriteBySlices(s, a, d1 + d2, r);
  }

  /** Logical RAM with `data` copied in at address `a`; the split is kept. */
  function LogicalWrite(ram: Ram, a: nat, data: seq<Byte>): (r: Ram)
    requires a + |data| <= ram.Size()
    ensures r.Size() == ram.Size() && r.loSize == ram.loSize
  {
    RamLayout(Overwrite(ram.bytes, a, data), ram.loSize)
  }

  /** Stores `data` at host pointer `p` (memcpy destination). The buffer holds
      logical RAM from SegStart on, so the copy lands there. */
  function HostWrite(ram: Ram, p: HostPtr, data: seq<Byte>): (r: Option<Ram>)
    ensures r.Some? <==> Fits(ram, p, |data|)
    ensures r.Some? ==> r.value.Size() == ram.Size() && r.value.loSize == ram.loSize
  {
    if !Fits(ram, p, |data|) then None
    else Some(LogicalWrite(ram, SegStart(ram, p.seg) + p.off, data))
  }

  /** A host write puts its data into the buffer it targets and leaves the
      other buffer alone. */
  lemma HostWriteBuffers(ram: Ram, p: HostPtr, data: seq<Byte>)
    requires Fits(ram, p, |data|)
    ensures Segment(HostWrite(ram, p, data).value, p.seg)[p.off..p.off + |data|] == data
    ensures Segment(HostWrite(ram, p, data).value, if p.seg == Low then High else Low)
         == Segment(ram, if p.seg == Low then High else Low)
  {
    var w := HostWrite(ram, p, data).value;
    WrittenSegment(ram, p, data, w);
    OtherSegment(ram, p, data, w);
  }

  lemma WrittenSegment(ram: Ram, p: HostPtr, data: seq<Byte>, w: Ram)
    requires Fits(ram, p, |data|)
    requires w == LogicalWrite(ram, SegStart(ram, p.seg) + p.off, data)
    ensures Segment(w, p.seg)[p.off..p.off + |data|] == data
  {
    var a := SegStart(ram, p.seg) + p.off;
    OverwriteSlices(ram.bytes, a, data);
    if p.seg == Low {
      SliceOfTake(w.bytes, ram.loSize, a, |data|);
    } else {
      SliceOfDrop(w.bytes, ram.loSize, a, |data|);
    }
  }

  lemma OtherSegment(ram: Ram, p: HostPtr, data: seq<Byte>, w: Ram)
    requires Fits(ram, p, |data|)
    requires w == LogicalWrite(ram, SegStart(ram, p.seg) + p.off, data)
    ensures Segment(w, if p.seg == Low then High else Low) == Segment(ram, if p.seg == Low then High else Low)
  {
    var a := SegStart(ram, p.seg) + p.off;
    OverwriteSlices(ram.bytes, a, data);
    if p.seg == Low {
      DropOfDrop(w.bytes, a + |data|, ram.loSize);
      DropOfDrop(ram.bytes, a + |data|, ram.loSize);
    } else {
      TakeOfTake(w.bytes, a, ram.loSize);
      TakeOfTake(ram.bytes, a, ram.loSize);
    }
  }

  /** Writing `d1` then, right after it, `d2` is one write of `d1 + d2`. */
  lemma LogicalWriteAdjacent(ram: Ram, a: nat, d1: seq<Byte>, d2: seq<Byte>)
    requires a + |d1| + |d2| <= ram.Size()
    ensures LogicalWrite(LogicalWrite(ram, a, d1), a + |d1|, d2) == LogicalWrite(ram, a, d1 + d2)
  {
    OverwriteAdjacent(ram.bytes, a, d1, d2);
  }

  /** A write done in two pieces is one write. */
  lemma LogicalWriteSplit(ram: Ram, a: nat, data: seq<Byte>, k: nat)
    requires k <= |data| && a + |data| <= ram.Size()
    ensures LogicalWrite(LogicalWrite(ram, a, data[..k]), a + k, data[k..]) == LogicalWrite(ram, a, data)
  {
    LogicalWriteAdjacent(ram, a, data[..k], data[k..]);
    assert data[..k] + data[k..] == data;
  }

  /** Writing nothing changes nothing. */
  lemma LogicalWriteEmpty(ram: Ram, a: nat)
    requires a <= ram.Size()
    ensures LogicalWrite(ram, a, []) == ram
  {
    assert ram.bytes[..a] + [] + ram.bytes[a..] == ram.bytes;
  }

  /** A logical write leaves every byte outside its range as it was. */
  lemma LogicalWriteFrame(ram: Ram, a: nat, data: seq<Byte>, x: nat, n: nat)
    requires a + |data| <= ram.Size() && x + n <= ram.Size()
    requires x + n <= a || a + |data| <= x
    ensures LogicalWrite(ram, a, data).bytes[x..x + n] == ram.bytes[x..x + n]
  {
    var s := ram.bytes;
    var r := LogicalWrite(ram, a, data).bytes;
    var e := a + |data|;
    OverwriteSlices(s, a, data);
    if x + n <= a {
      SliceOfTake(r, a, x, n);
      SliceOfTake(s, a, x, n);
    } else {
      SliceOfDrop(r, e, x, n);
      SliceOfDrop(s, e, x, n);
    }
  }

  lemma SliceOfDrop(s: seq<Byte>, e: nat, x: nat, n: nat)
    requires e <= x && x + n <= |s|
    ensures s[x..x + n] == s[e..][x - e..x + n - e]
  {
  }

  lemma SliceOfTake(s: seq<Byte>, e: nat, x: nat, n: nat)
    requires x + n <= e <= |s|
    ensures s[x..x + n] == s[..e][x..x + n]
  {
  }

  lemma DropOfDrop(s: seq<Byte>, e: nat, k: nat)
    requires e <= k <= |s|
    ensures s[k..] == s[e..][k - e..]
  {
  }

  lemma TakeOfTake(s: seq<Byte>, e: nat, k: nat)
    requires k <= e <= |s|
    ensures s[..k] == s[..e][..k]
  {
  }

  /** When `n` bytes from `a` fit the host buffer `ram_get_base(a)` points
      into, they are exactly the logical range [a, a+n), and no more. */
  lemma FitsIsRange(ram: Ram, a: nat, n: nat)
    requires n > 0
    ensures Fits(ram, RamGetBase(ram, a), n)
        <==> (a + n <= ram.loSize) || (ram.IsSplit() && ram.loSize <= a && a + n <= ram.Size())
  {
  }

  /** A host read that stays within its buffer reads logical RAM. */
  lemma HostReadIsLogical(ram: Ram, a: nat, n: nat)
    requires Fits(ram, RamGetBase(ram, a), n)
    ensures a + n <= ram.Size()
    ensures HostRead(ram, RamGetBase(ram, a), n) == Some(ram.bytes[a..a + n])
  {
    var p := RamGetBase(ram, a);
    if p.seg == Low {
      SliceOfTake(ram.bytes, ram.loSize, a, n);
    } else {
      SliceOfDrop(ram.bytes, ram.loSize, a, n);
    }
  }

  /** A host write that stays within its buffer is a logical write. */
  lemma HostWriteIsLogical(ram: Ram, a: nat, data: seq<Byte>)
    requires Fits(ram, RamGetBase(ram, a), |data|)
    ensures a + |data| <= ram.Size()
    ensures HostWrite(ram, RamGetBase(ram, a), data) == Some(LogicalWrite(ram, a, data))
  {
  }

  // ---------------------------------------------------------------------------
  // Big-endian accessors (_umac_read16/32, _umac_write16/32)

  datatype ByteOrder = LittleEndian | BigEndian

  function Bswap16(w: bv16): bv16 {
    (w << 8) | (w >> 8)
  }

  /** The 16-bit value a host of the given byte order loads from two bytes. */
  function Load16(order: ByteOrder, b0: Byte, b1: Byte): bv16 {
    if order == BigEndian then ((b0 as bv16) << 8) | (b1 as bv16)
    else ((b1 as bv16) << 8) | (b0 as bv16)
  }

  /** The two bytes a host of the given byte order stores for a 16-bit value. */
  function Store16(order: ByteOrder, w: bv16): (r: seq<Byte>)
    ensures |r| == 2
  {
    var h := (w >> 8) as Byte;
    var l := (w & 0xff) as Byte;
    if order == BigEndian then [h, l] else [l, h]
  }

  /** _umac_read16 on a host of the given byte order. */
  function Read16(order: ByteOrder, b: seq<Byte>): bv16
    requires |b| == 2
  {
    var r := Load16(order, b[0], b[1]);
    if order == BigEndian then r else Bswap16(r)
  }

  /** _umac_write16 as written: its `#if` tests the misspelt, undefined macro
      BYE_ORDER, so the swapping branch is compiled on every host. */
  function Write16AsWritten(order: ByteOrder, v: bv16): seq<Byte> {
    Store16(order, Bswap16(v))
  }

  /** _umac_write16 as intended, testing BYTE_ORDER like the other three. */
  function Write16(order: ByteOrder, v: bv16): seq<Byte> {
    if order == BigEndian then Store16(order, v) else Store16(order, Bswap16(v))
  }

  /** _umac_read32: two host 16-bit loads, the high half first. */
  function Read32(order: ByteOrder, b: seq<Byte>): bv32
    requires |b| == 4
  {
    var h := Load16(order, b[0], b[1]);
    var l := Load16(order, b[2], b[3]);
    if order == BigEndian then ((h as bv32) << 16) | (l as bv32)
    else ((Bswap16(h) as bv32) << 16) | (Bswap16(l) as bv32)
  }

  /** _umac_write32: two host 16-bit stores, the high half first. */
  function Write32(order: ByteOrder, v: bv32): seq<Byte> {
    var h := (v >> 16) as bv16;
    var l := (v & 0xffff) as bv16;
    if order == BigEndian then Store16(order, h) + Store16(order, l)
    else Store16(order, Bswap16(h)) + Store16(order, Bswap16(l))
  }

  /** Guest memory image of a 16-bit value: most significant byte first. */
  function Be16(v: bv16): (r: seq<Byte>)
    ensures |r| == 2
  {
    [(v >> 8) as Byte, (v & 0xff) as Byte]
  }

  function FromBe16(b: seq<Byte>): bv16
    requires |b| == 2
  {
    ((b[0] as bv16) << 8) | (b[1] as bv16)
  }

  /** Guest memory image of a 32-bit value: most significant byte first. */
  function Be32(v: bv32): (r: seq<Byte>)
    ensures |r| == 4
  {
    [(v >> 24) as Byte, ((v >> 16) & 0xff) as Byte, ((v >> 8) & 0xff) as Byte, (v & 0xff) as Byte]
  }

  function FromBe32(b: seq<Byte>): bv32
    requires |b| == 4
  {
    ((b[0] as bv32) << 24) | ((b[1] as bv32) << 16) | ((b[2] as bv32) << 8) | (b[3] as bv32)
  }

  lemma Be16RoundTrip(v: bv16, b: seq<Byte>)
    requires |b| == 2
    ensures FromBe16(Be16(v)) == v
    ensures Be16(FromBe16(b)) == b
  {
  }

  lemma Be32RoundTrip(v: bv32, b: seq<Byte>)
    requires |b| == 4
    ensures FromBe32(Be32(v)) == v
    ensures Be32(FromBe32(b)) == b
  {
  }

  lemma Be32Zero()
    ensures Be32(0) == [0, 0, 0, 0]
  {
  }

  /** A 32-bit value is stored as its high 16-bit half followed by its low half. */
  lemma Be32HighHalfFirst(v: bv32)
    ensures Be32(v) == Be16((v >> 16) as bv16) + Be16((v & 0xffff) as bv16)
  {
  }

  /** On either host the (corrected) accessors keep guest memory big-endian. */
  lemma AccessorsAreBigEndian(order: ByteOrder, v16: bv16, v32: bv32, b2: seq<Byte>, b4: seq<Byte>)
    requires |b2| == 2 && |b4| == 4
    ensures Write16(order, v16) == Be16(v16)
    ensures Read16(order, b2) == FromBe16(b2)
    ensures Write32(order, v32) == Be32(v32)
    ensures Read32(order, b4) == FromBe32(b4)
  {
  }

  /** Reading back what was written gives the value, on either host. */
  lemma AccessorRoundTrip(order: ByteOrder, v16: bv16, v32: bv32)
    ensures Read16(order, Write16(order, v16)) == v16
    ensures Read32(order, Write32(order, v32)) == v32
  {
    AccessorsAreBigEndian(order, v16, v32, Write16(order, v16), Write32(order, v32));
    Be16RoundTrip(v16, Be16(v16));
    Be32RoundTrip(v32, Be32(v32));
  }

  /** On a little-endian host the misspelt test is harmless. */
  lemma Write16AsWrittenLittleEndian(v: bv16)
    ensures Write16AsWritten(LittleEndian, v) == Write16(LittleEndian, v)
  {
  }

  /** On a big-endian host the 16-bit store byte-swaps: 0x1234 reads back as 0x3412. */
  lemma Write16AsWrittenBigEndian(v: bv16)
    ensures Read16(BigEndian, Write16AsWritten(BigEndian, v)) == Bswap16(v)
    ensures Read16(BigEndian, Write16AsWritten(BigEndian, 0x1234)) == 0x3412
  {
  }

  // ---------------------------------------------------------------------------
  // Guest RAM accessors (RAM_RD8/16/32, RAM_WR8/16/32: ReadMacInt*/WriteMacInt*)

  /** 16/32-bit host accesses assert an even host offset. */
  predicate Aligned(p: HostPtr) {
    p.off % 2 == 0
  }

  function RamRead8(ram: Ram, a: nat): (r: Option<Byte>)
    ensures r.Some? <==> a < ram.Size()
    ensures r.Some? ==> r.value == ram.bytes[a]
  {
    var p := RamGetBase(ram, a);
    if Fits(ram, p, 1) then Some(Segment(ram, p.seg)[p.off]) else None
  }

  function RamRead16(ram: Ram, a: nat): (r: Option<bv16>)
    ensures r.Some? <==> Aligned(RamGetBase(ram, a)) && Fits(ram, RamGetBase(ram, a), 2)
    ensures r.Some? ==> a + 2 <= ram.Size() && r.value == FromBe16(ram.bytes[a..a + 2])
  {
    var p := RamGetBase(ram, a);
    if Aligned(p) && Fits(ram, p, 2) then
      HostReadIsLogical(ram, a, 2);
      Some(FromBe16(HostRead(ram, p, 2).value))
    else None
  }

  function RamRead32(ram: Ram, a: nat): (r: Option<bv32>)
    ensures r.Some? <==> Aligned(RamGetBase(ram, a)) && Fits(ram, RamGetBase(ram, a), 4)
    ensures r.Some? ==> a + 4 <= ram.Size() && r.value == FromBe32(ram.bytes[a..a + 4])
  {
    var p := RamGetBase(ram, a);
    if Aligned(p) && Fits(ram, p, 4) then
      HostReadIsLogical(ram, a, 4);
      Some(FromBe32(HostRead(ram, p, 4).value))
    else None
  }

  function RamWrite8(ram: Ram, a: nat, v: Byte): (r: Option<Ram>)
    ensures r.Some? <==> a < ram.Size()
    ensures r.Some? ==> r.value == LogicalWrite(ram, a, [v])
  {
    var p := RamGetBase(ram, a);
    if Fits(ram, p, 1) then
      HostWriteIsLogical(ram, a, [v]);
      HostWrite(ram, p, [v])
    else None
  }

  function RamWrite16(ram: Ram, a: nat, v: bv16): (r: Option<Ram>)
    ensures r.Some? <==> Aligned(RamGetBase(ram, a)) && Fits(ram, RamGetBase(ram, a), 2)
    ensures r.Some? ==> a + 2 <= ram.Size() && r.value == LogicalWrite(ram, a, Be16(v))
  {
    var p := RamGetBase(ram, a);
    if Aligned(p) && Fits(ram, p, 2) then
      HostWriteIsLogical(ram, a, Be16(v));
      HostWrite(ram, p, Be16(v))
    else None
  }

  function RamWrite32(ram: Ram, a: nat, v: bv32): (r: Option<Ram>)
    ensures r.Some? <==> Aligned(RamGetBase(ram, a)) && Fits(ram, RamGetBase(ram, a), 4)
    ensures r.Some? ==> a + 4 <= ram.Size() && r.value == LogicalWrite(ram, a, Be32(v))
  {
    var p := RamGetBase(ram, a);
    if Aligned(p) && Fits(ram, p, 4) then
      HostWriteIsLogical(ram, a, Be32(v));
      HostWrite(ram, p, Be32(v))
    else None
  }

  /** A 16-bit store reads back, whatever the RAM split. */
  lemma RamWriteRead16(ram: Ram, a: nat, v: bv16)
    requires RamWrite16(ram, a, v).Some?
    ensures RamRead16(RamWrite16(ram, a, v).value, a) == Some(v)
  {
    var r := RamWrite16(ram, a, v).value;
    OverwriteSlices(ram.bytes, a, Be16(v));
    assert r.bytes[a..a + 2] == Be16(v);
    Be16RoundTrip(v, Be16(v));
  }

  /** A 32-bit store reads back, whatever the RAM split. */
  lemma RamWriteRead32(ram: Ram, a: nat, v: bv32)
    requires RamWrite32(ram, a, v).Some?
    ensures RamRead32(RamWrite32(ram, a, v).value, a) == Some(v)
  {
    var r := RamWrite32(ram, a, v).value;
    OverwriteSlices(ram.bytes, a, Be32(v));
    assert r.bytes[a..a + 4] == Be32(v);
    Be32RoundTrip(v, Be32(v));
  }

  /** A byte store reads back. */
  lemma RamWriteRead8(ram: Ram, a: nat, v: Byte)
    requires a < ram.Size()
    ensures RamRead8(RamWrite8(ram, a, v).value, a) == Some(v)
  {
    var w := LogicalWrite(ram, a, [v]);
    OverwriteSlices(ram.bytes, a, [v]);
    assert w.bytes[a] == w.bytes[a..a + 1][0];
  }

  /** A byte store updates one byte of logical RAM. */
  lemma RamWrite8Update(ram: Ram, a: nat, v: Byte)
    requires a < ram.Size()
    ensures RamWrite8(ram, a, v) == Some(RamLayout(ram.bytes[a := v], ram.loSize))
  {
    assert Overwrite(ram.bytes, a, [v]) == Overwrite(ram.bytes[a := v], a + 1, []);
  }

  /** A logical write at or above `n` keeps the bytes below `n`. */
  lemma LogicalWriteAbove(ram: Ram, a: nat, data: seq<Byte>, n: nat)
    requires n <= a && a + |data| <= ram.Size()
    ensures LogicalWrite(ram, a, data).bytes[..n] == ram.bytes[..n]
  {
    LogicalWriteFrame(ram, a, data, 0, n);
  }

  /** Two RAM states of the same layout that agree below `n` read the same
      words and longs there. */
  lemma RamRead16Below(r1: Ram, r2: Ram, n: nat, x: nat)
    requires r1.loSize == r2.loSize && r1.Size() == r2.Size() && n <= r1.Size()
    requires r1.bytes[..n] == r2.bytes[..n]
    requires x + 2 <= n
    ensures RamRead16(r1, x) == RamRead16(r2, x)
  {
    assert r1.bytes[x..x + 2] == r1.bytes[..n][x..x + 2];
    assert r2.bytes[x..x + 2] == r2.bytes[..n][x..x + 2];
  }

  lemma RamRead32Below(r1: Ram, r2: Ram, n: nat, x: nat)
    requires r1.loSize == r2.loSize && r1.Size() == r2.Size() && n <= r1.Size()
    requires r1.bytes[..n] == r2.bytes[..n]
    requires x + 4 <= n
    ensures RamRead32(r1, x) == RamRead32(r2, x)
  {
    assert r1.bytes[x..x + 4] == r1.bytes[..n][x..x + 4];
    assert r2.bytes[x..x + 4] == r2.bytes[..n][x..x + 4];
  }

  /** Two RAM states of the same layout that hold the same two bytes at `x`
      read the same word there. */
  lemma RamRead16Same(r1: Ram, r2: Ram, x: nat)
    requires r1.loSize == r2.loSize && r1.Size() == r2.Size()
    requires x + 2 <= r1.Size() ==> r1.bytes[x..x + 2] == r2.bytes[x..x + 2]
    ensures RamRead16(r1, x) == RamRead16(r2, x)
  {
    assert RamGetBase(r1, x) == RamGetBase(r2, x);
  }

  /** Reads of RAM outside a logical write see the old contents. */
  lemma RamRead8Frame(ram: Ram, a: nat, data: seq<Byte>, x: nat)
    requires a + |data| <= ram.Size()
    requires x + 1 <= a || a + |data| <= x
    ensures RamRead8(LogicalWrite(ram, a, data), x) == RamRead8(ram, x)
  {
    if x < ram.Size() {
      var w := LogicalWrite(ram, a, data);
      LogicalWriteFrame(ram, a, data, x, 1);
      assert w.bytes[x] == w.bytes[x..x + 1][0];
      assert ram.bytes[x] == ram.bytes[x..x + 1][0];
    }
  }

  lemma RamRead16Frame(ram: Ram, a: nat, data: seq<Byte>, x: nat)
    requires a + |data| <= ram.Size()
    requires x + 2 <= a || a + |data| <= x
    ensures RamRead16(LogicalWrite(ram, a, data), x) == RamRead16(ram, x)
  {
    assert RamGetBase(LogicalWrite(ram, a, data), x) == RamGetBase(ram, x);
    if x + 2 <= ram.Size() {
      LogicalWriteFrame(ram, a, data, x, 2);
    }
  }

  lemma RamRead32Frame(ram: Ram, a: nat, data: seq<Byte>, x: nat)
    requires a + |data| <= ram.Size()
    requires x + 4 <= a || a + |data| <= x
    ensures RamRead32(LogicalWrite(ram, a, data), x) == RamRead32(ram, x)
  {
    assert RamGetBase(LogicalWrite(ram, a, data), x) == RamGetBase(ram, x);
    if x + 4 <= ram.Size() {
      LogicalWriteFrame(ram, a, data, x, 4);
    }
  }

  // ---------------------------------------------------------------------------
  // ROM accessors (ROM_RD8/16/32).  The ROM image length is ROM_SIZE, a power
  // of two, so `addr & (ROM_SIZE - 1)` is `addr % |rom|`.

  function RomOffset(rom: seq<Byte>, addr: Addr): (i: nat)
    requires |rom| > 0
    ensures i < |rom|
  {
    (addr as int) % |rom|
  }

  function RomRead8(rom: seq<Byte>, addr: Addr): Byte
    requires |rom| > 0
  {
    rom[RomOffset(rom, addr)]
  }

  /** ROM_RD16: the aligned word at the address wrapped into ROM, whose two
      image bytes are its big-endian encoding. */
  function RomRead16(rom: seq<Byte>, addr: Addr): (r: Option<bv16>)
    requires |rom| > 0
    ensures r.Some? <==> RomOffset(rom, addr) % 2 == 0 && RomOffset(rom, addr) + 2 <= |rom|
    ensures r.Some? ==> var i := RomOffset(rom, addr); i + 2 <= |rom| && Be16(r.value) == rom[i..i + 2]
  {
    var i := RomOffset(rom, addr);
    if i % 2 == 0 && i + 2 <= |rom| then
      Be16RoundTrip(0, rom[i..i + 2]);
      Some(FromBe16(rom[i..i + 2]))
    else None
  }

  /** ROM_RD32: the aligned long at the address wrapped into ROM, whose four
      image bytes are its big-endian encoding. */
  function RomRead32(rom: seq<Byte>, addr: Addr): (r: Option<bv32>)
    requires |rom| > 0
    ensures r.Some? <==> RomOffset(rom, addr) % 2 == 0 && RomOffset(rom, addr) + 4 <= |rom|
    ensures r.Some? ==> var i := RomOffset(rom, addr); i + 4 <= |rom| && Be32(r.value) == rom[i..i + 4]
  {
    var i := RomOffset(rom, addr);
    if i % 2 == 0 && i + 4 <= |rom| then
      Be32RoundTrip(0, rom[i..i + 4]);
      Some(FromBe32(rom[i..i + 4]))
    else None
  }
}
