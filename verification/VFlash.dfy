/** Files on raw flash (example/vflashdemo/main.c): sectors are rewritten, and it looks like a flat array of bytes. */
module VFlash {

  const SECTOR_SIZE: nat := 0x1000

  /** x & SECTOR_MASK. */
  function SectorOf(x: nat): nat { x - x % SECTOR_SIZE }

  /** The bytes rewritten for `len` bytes at `pos`. */
  function WriteSize(pos: nat, len: nat): nat { SectorOf(pos - SectorOf(pos) + len + (SECTOR_SIZE - 1)) }

  /** The sectors rewritten cover the bytes written, and no fewer would. */
  lemma WriteSizeIsLeast(pos: nat, len: nat)
    ensures SectorOf(pos) <= pos && pos + len <= SectorOf(pos) + WriteSize(pos, len)
    ensures SectorOf(pos) % SECTOR_SIZE == 0 && WriteSize(pos, len) % SECTOR_SIZE == 0
    ensures forall n: nat :: n % SECTOR_SIZE == 0 && n <= pos ==> n <= SectorOf(pos)
    ensures forall n: nat :: n % SECTOR_SIZE == 0 && pos + len <= SectorOf(pos) + n ==> WriteSize(pos, len) <= n
  {
  }

  // ---------------------------------------------------------------- a flat array of bytes

  datatype Patch = Patch(at: nat, data: seq<bv8>)

  function Overlay(s: seq<bv8>, at: nat, data: seq<bv8>): (r: seq<bv8>)
    requires at + |data| <= |s|
    ensures |r| == |s|
  {
    s[..at] + data + s[at + |data|..]
  }

  ghost predicate Fits(log: seq<Patch>, size: nat) {
    forall i {:trigger log[i]} :: 0 <= i < |log| ==> log[i].at + |log[i].data| <= size
  }

  /** The writes laid over `s`, in order. */
  ghost function Overlays(s: seq<bv8>, log: seq<Patch>): (r: seq<bv8>)
    requires Fits(log, |s|)
    ensures |r| == |s|
  {
    if log == [] then s else
    var w := log[|log| - 1];
    Overlay(Overlays(s, log[..|log| - 1]), w.at, w.data)
  }

  ghost predicate Covers(w: Patch, k: nat) { w.at <= k < w.at + |w.data| }

  /** Byte `k`: decided by the last write over it, or as it was. */
  ghost function LastByte(s: seq<bv8>, log: seq<Patch>, k: nat): bv8
    requires k < |s|
  {
    if log == [] then s[k] else
    var w := log[|log| - 1];
    if Covers(w, k) then w.data[k - w.at] else LastByte(s, log[..|log| - 1], k)
  }

  lemma {:induction false} LastWriteDecides(s: seq<bv8>, log: seq<Patch>, k: nat)
    requires Fits(log, |s|) && k < |s|
    ensures Overlays(s, log)[k] == LastByte(s, log, k)
  {
    if log != [] {
      var init := log[..|log| - 1];
      assert forall i {:trigger log[i]} :: 0 <= i < |log| - 1 ==> log[i] == init[i];
      LastWriteDecides(s, init, k);
    }
  }

  lemma {:induction false} UncoveredUnchanged(s: seq<bv8>, log: seq<Patch>, k: nat)
    requires k < |s| && forall i {:trigger log[i]} :: 0 <= i < |log| ==> !Covers(log[i], k)
    ensures LastByte(s, log, k) == s[k]
  {
    if log != [] {
      UncoveredUnchanged(s, log[..|log| - 1], k);
    }
  }

  lemma OverlaysSnoc(s: seq<bv8>, log: seq<Patch>, w: Patch)
    requires Fits(log, |s|) && w.at + |w.data| <= |s|
    ensures Fits(log + [w], |s|) && Overlays(s, log + [w]) == Overlay(Overlays(s, log), w.at, w.data)
  {
    assert (log + [w])[..|log|] == log;
  }

  function Erased(size: nat): (s: seq<bv8>)
    ensures |s| == size
  {
    seq(size, _ => 0xFF)
  }

  /** Rewriting the sectors around a patch is patching the whole. */
  lemma SectorSwap(s: seq<bv8>, at: nat, size: nat, pos: nat, data: seq<bv8>, sector: seq<bv8>)
    requires at <= pos && pos + |data| <= at + size <= |s|
    requires sector == Overlay(s[at..at + size], pos - at, data)
    ensures Overlay(s, at, sector) == Overlay(s, pos, data)
    ensures Overlay(s, pos, data)[at..at + size] == sector
  {
    var whole := Overlay(s, pos, data);
    assert whole[at..at + size] == sector;
    assert whole[..at] == s[..at] && whole[at + size..] == s[at + size..];
    assert whole == whole[..at] + whole[at..at + size] + whole[at + size..];
  }

  lemma ErasedPart(s: seq<bv8>, at: nat, size: nat, count: nat)
    requires at + size <= |s| && count <= size
    ensures Overlay(s, at, Erased(size))[at..at + count] == Erased(count)
  {
  }

  lemma OverTwice(s: seq<bv8>, at: nat, first: seq<bv8>, second: seq<bv8>)
    requires |first| == |second| && at + |first| <= |s|
    ensures Overlay(Overlay(s, at, first), at, second) == Overlay(s, at, second)
  {
  }

  // ---------------------------------------------------------------- the device

  /** What can go wrong: each operation may fail outright, and a write may stop early without saying so. */
  datatype Faults = Faults(read: bool, erase: bool, write: bool, short: nat)

  /** Writing can only clear bits. */
  function Masked(under: seq<bv8>, data: seq<bv8>): seq<bv8>
    requires |under| == |data|
  {
    seq(|data|, i requires 0 <= i < |data| => under[i] & data[i])
  }

  lemma MaskedErased(data: seq<bv8>)
    ensures Masked(Erased(|data|), data) == data
  {
  }

  /** Flash memory. */
  class Device {
    const cells: array<bv8>
    ghost var initial: seq<bv8> // the contents at first, or when a rewrite was last cut short
    ghost var log: seq<Patch> // the writes to files since then

    ghost predicate Valid()
      reads this, cells
    {
      |initial| == cells.Length && Fits(log, |initial|) && cells[..] == Overlays(initial, log)
    }

    constructor (size: nat)
      ensures Valid() && fresh(cells) && cells.Length == size && log == []
    {
      cells := new bv8[size](_ => 0xFF);
      new;
      initial, log := cells[..], [];
    }

    method Read(at: nat, buf: array<bv8>, fails: bool) returns (ret: int, end: nat)
      requires buf != cells
      modifies buf
      ensures if fails || at + buf.Length > cells.Length then ret < 0 && end == at && buf[..] == old(buf[..])
              else ret == 0 && end == at + buf.Length && buf[..] == cells[at..end]
    {
      if fails || at + buf.Length > cells.Length {
        return -1, at;
      }
      forall i | 0 <= i < buf.Length { buf[i] := cells[at + i]; }
      ret, end := 0, at + buf.Length;
    }

    method Erase(at: nat, size: nat, fails: bool) returns (ret: int)
      requires at % SECTOR_SIZE == 0 && size % SECTOR_SIZE == 0
      modifies cells
      ensures if fails || at + size > cells.Length then ret < 0 && cells[..] == old(cells[..])
              else ret == 0 && cells[..] == Overlay(old(cells[..]), at, Erased(size))
    {
      if fails || at + size > cells.Length {
        return -1;
      }
      forall i | at <= i < at + size { cells[i] := 0xFF; }
      ret := 0;
    }

    method Clear(at: nat, buf: array<bv8>, count: nat)
      requires buf != cells && count <= buf.Length && at + count <= cells.Length
      modifies cells
      ensures cells[..] == Overlay(old(cells[..]), at, Masked(old(cells[at..at + count]), buf[..count]))
    {
      hide Overlay, Masked;
      ghost var was, under, data := cells[..], cells[at..at + count], buf[..count];
      assert was[at..at + count] == under;
      forall i | 0 <= i < count { cells[at + i] := cells[at + i] & buf[i]; }
      Cleared(was, at, data, cells[..]);
      assert data == buf[..count];
    }

    static lemma Cleared(was: seq<bv8>, at: nat, data: seq<bv8>, now: seq<bv8>)
      requires at + |data| <= |was| == |now|
      requires forall i :: 0 <= i < |was| && !(at <= i < at + |data|) ==> now[i] == was[i]
      requires forall i :: at <= i < at + |data| ==> now[i] == was[i] & data[i - at]
      ensures now == Overlay(was, at, Masked(was[at..at + |data|], data))
    {
      assert now[at..at + |data|] == Masked(was[at..at + |data|], data);
      assert now[..at] == was[..at] && now[at + |data|..] == was[at + |data|..];
      assert now == now[..at] + now[at..at + |data|] + now[at + |data|..];
    }

    method Program(at: nat, buf: array<bv8>, fails: bool, count: nat) returns (ret: int, end: nat)
      requires buf != cells && count <= buf.Length
      modifies cells
      ensures if fails || at + buf.Length > cells.Length then ret < 0 && end == at && cells[..] == old(cells[..])
              else ret == 0 && end == at + count
                   && cells[..] == Overlay(old(cells[..]), at, Masked(old(cells[at..at + count]), buf[..count]))
    {
      if fails || at + buf.Length > cells.Length {
        return -1, at;
      }
      hide Overlay, Masked;
      Clear(at, buf, count);
      ret, end := 0, at + count;
    }
  }

  class File {
    const dev: Device
    var offset: nat

    constructor (dev: Device)
      ensures this.dev == dev && offset == 0
    {
      this.dev, offset := dev, 0;
    }

    /** What a write is to leave on the device. */
    ghost function Wanted(data: seq<bv8>): seq<bv8>
      reads this, dev, dev.cells
      requires offset + |data| <= dev.cells.Length
    {
      Overlay(dev.cells[..], offset, data)
    }

    /** flash_write. */
    method Write(data: array<bv8>, faults: Faults) returns (ret: int)
      requires dev.Valid() && data != dev.cells
      requires offset + data.Length + SECTOR_SIZE <= 0x1_0000_0000 && dev.cells.Length <= 0x1_0000_0000
      modifies this`offset, dev, dev.cells
      ensures dev.Valid()
      ensures var at, size := SectorOf(old(offset)), WriteSize(old(offset), data.Length);
              if at + size > dev.cells.Length || faults.read || faults.erase then
                ret < 0 && offset == old(offset) && dev.cells[..] == old(dev.cells[..]) && dev.log == old(dev.log)
              else if faults.write then
                ret < 0 && offset == old(offset) && dev.cells[..] == Overlay(old(dev.cells[..]), at, Erased(size))
              else if faults.short < size then
                ret == 0 && offset == old(offset)
                && dev.cells[..] == Overlay(Overlay(old(dev.cells[..]), at, Erased(size)), at,
                                            old(Wanted(data[..]))[at..at + faults.short])
              else
                ret == data.Length && offset == old(offset) + data.Length
                && dev.cells[..] == old(Wanted(data[..]))
                && dev.initial == old(dev.initial) && dev.log == old(dev.log) + [Patch(old(offset), data[..])]
    {
      hide SectorOf, WriteSize, Overlay, Overlays, Fits, Erased;
      WriteSizeIsLeast(offset, data.Length);
      var sectorOff := SectorOf(offset);
      var writeSize := WriteSize(offset, data.Length);
      ghost var cells := dev.cells[..];
      var buffer;
      ret, buffer := Merge(sectorOff, writeSize, data, faults.read);
      if ret < 0 {
        return;
      }
      SectorSwap(cells, sectorOff, writeSize, offset, data[..], buffer[..]);
      var end;
      ret, end := Rewrite(sectorOff, buffer, faults);
      if ret >= 0 && end - sectorOff == writeSize {
        OverlaysSnoc(dev.initial, dev.log, Patch(offset, data[..]));
        dev.log := dev.log + [Patch(offset, data[..])];
        offset := offset + data.Length;
        ret := data.Length;
      } else if !faults.erase {
        ghost var wanted := Overlay(cells, offset, data[..]);
        assert faults.short < writeSize ==>
                 wanted[sectorOff..sectorOff + writeSize][..faults.short] ==
                   wanted[sectorOff..sectorOff + faults.short];
        StartOver();
      }
    }

    /** Lines 32-44: the sectors' present contents with the new bytes over them. */
    method Merge(at: nat, size: nat, data: array<bv8>, fails: bool) returns (ret: int, buffer: array<bv8>)
      requires at <= offset && offset + data.Length <= at + size && data != dev.cells
      ensures fresh(buffer) && buffer.Length == size
      ensures if fails || at + size > dev.cells.Length then ret < 0
              else ret == 0 && buffer[..] == Overlay(dev.cells[at..at + size], offset - at, data[..])
    {
      hide Overlay;
      buffer := new bv8[size](_ => 0);
      var end;
      ret, end := dev.Read(at, buffer, fails);
      if ret >= 0 {
        Paste(buffer, offset - at, data);
      }
    }

    static method Paste(buffer: array<bv8>, at: nat, data: array<bv8>)
      requires at + data.Length <= buffer.Length && buffer != data
      modifies buffer
      ensures buffer[..] == Overlay(old(buffer[..]), at, data[..])
    {
      ghost var was := buffer[..];
      forall i | 0 <= i < data.Length { buffer[at + i] := data[i]; }
      assert buffer[..at] == was[..at] && buffer[at + data.Length..] == was[at + data.Length..];
      assert buffer[at..at + data.Length] == data[..];
      assert buffer[..] == buffer[..at] + buffer[at..at + data.Length] + buffer[at + data.Length..];
    }

    /** Lines 46-55: erase and program the sectors. */
    method Rewrite(at: nat, buffer: array<bv8>, faults: Faults) returns (ret: int, end: nat)
      requires at + buffer.Length <= dev.cells.Length && buffer != dev.cells
      requires at % SECTOR_SIZE == 0 && buffer.Length % SECTOR_SIZE == 0
      modifies dev.cells
      ensures var was, n := old(dev.cells[..]), if faults.short < buffer.Length then faults.short else buffer.Length;
              if faults.erase then ret < 0 && dev.cells[..] == was
              else if faults.write then ret < 0 && dev.cells[..] == Overlay(was, at, Erased(buffer.Length))
              else ret == 0 && end == at + n
                   && dev.cells[..] == Overlay(Overlay(was, at, Erased(buffer.Length)), at, buffer[..n])
      ensures ret >= 0 && end == at + buffer.Length ==> dev.cells[..] == Overlay(old(dev.cells[..]), at, buffer[..])
    {
      hide Masked, Erased;
      end := at;
      ghost var was := dev.cells[..];
      ret := dev.Erase(at, buffer.Length, faults.erase);
      if ret < 0 {
        return;
      }
      var count := if faults.short < buffer.Length then faults.short else buffer.Length;
      ErasedPart(was, at, buffer.Length, count);
      assert dev.cells[at..at + count] == dev.cells[..][at..at + count];
      MaskedErased(buffer[..count]);
      ret, end := dev.Program(at, buffer, faults.write, count);
      if count == buffer.Length {
        OverTwice(was, at, Erased(buffer.Length), buffer[..]);
        assert buffer[..count] == buffer[..];
      }
    }

    ghost method StartOver()
      modifies dev`initial, dev`log
      ensures dev.Valid() && dev.log == []
    {
      dev.initial, dev.log := dev.cells[..], [];
    }

    /** flash_read: the number of bytes read; a failure reads as none. */
    method Read(buf: array<bv8>, fails: bool) returns (ret: int)
      requires dev.Valid() && buf != dev.cells
      modifies this`offset, buf
      ensures dev.Valid()
      ensures if fails || old(offset) + buf.Length > dev.cells.Length
              then ret == 0 && offset == old(offset) && buf[..] == old(buf[..])
              else ret == buf.Length && offset == old(offset) + ret
                   && forall k {:trigger buf[k]} :: 0 <= k < ret ==>
                        buf[k] == LastByte(dev.initial, dev.log, old(offset) + k)
    {
      hide Overlays, LastByte, Fits;
      var was := offset;
      ret, offset := dev.Read(offset, buf, fails);
      if ret < 0 {
        return 0;
      }
      ret := offset - was;
      forall k | 0 <= k < ret ensures buf[k] == LastByte(dev.initial, dev.log, was + k) {
        LastWriteDecides(dev.initial, dev.log, was + k);
        assert buf[k] == buf[..][k] == dev.cells[was + k] == dev.cells[..][was + k];
      }
    }
  }
}
