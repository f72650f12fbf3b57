/** A partition: `count` sectors of the cached device starting at `lba`, addressed from zero. */
module Partitions {
  import opened Bytes
  import opened Slots
  import opened IoMan

  class Partition {
    const io: IOManager
    const lba: nat
    const count: nat

    constructor (io: IOManager, lba: nat, count: nat)
      ensures this.io == io && this.lba == lba && this.count == count
    {
      this.io, this.lba, this.count := io, lba, count;
    }

    ghost predicate Ready()
      reads io
    {
      io.Valid() && lba + count <= |io.view|
    }

    /** The partition's sectors as last written by any route. */
    ghost function Disc(): (d: seq<Sector>)
      requires Ready()
      reads io
      ensures |d| == count
    {
      io.view[lba..lba + count]
    }

    /** How many more buffers may be requested before one must be released. */
    ghost function Slack(): int
      reads io
    {
      (if io.Room() < 0xFF then io.Room() else 0xFF) - |io.held|
    }

    /** `bp` is the buffer obtained last, for sector `address` of this partition. */
    ghost predicate Top(bp: nat, address: nat, rw: bool)
      reads io
    {
      && io.held != [] && io.held[|io.held| - 1].bp == bp
      && io.held[|io.held| - 1].address == lba + address
      && address < count
      && (rw ==> io.held[|io.held| - 1].rw)
    }

    /** The sectors in front of and behind the partition. */
    ghost function Outside(): (seq<Sector>, seq<Sector>)
      requires Ready()
      reads io
    {
      (io.view[..lba], io.view[lba + count..])
    }

    /** part_getSect */
    method GetSect(address: nat, mode: nat) returns (bp: nat)
      requires Ready() && address < count && Slack() > 0
      modifies io
      ensures Ready() && Disc() == old(Disc()) && Outside() == old(Outside())
      ensures Slack() == old(Slack()) - 1 && |io.slots| == |old(io.slots)|
      ensures |io.held| == |old(io.held)| + 1 && io.held[..|old(io.held)|] == old(io.held)
      ensures Top(bp, address, mode == IOM_MODE_READWRITE)
      ensures io.view == old(io.view) && io.held[|io.held| - 1].address == lba + address
    {
      CapacitySuffices(io.numit, io.slots, io.dev, io.view, io.held);
      UsageBelow(io.numit, io.slots, io.dev, io.view, io.held);
      bp := io.GetSector(lba + address, mode);
    }

    /** Reading through the pointer obtained last. */
    method Load(bp: nat, ghost address: nat) returns (buf: Sector)
      requires Ready() && Top(bp, address, false)
      ensures buf == Disc()[address] == io.view[lba + address]
    {
      NewestInPlace(io.numit, io.slots, io.dev, io.view, io.held);
      buf := io.Buffer(bp);
    }

    /** Writing through the pointer obtained last. */
    method Store(bp: nat, ghost address: nat, off: nat, bytes: seq<Byte>)
      requires Ready() && Top(bp, address, true) && off + |bytes| <= SECTOR_SIZE
      modifies io
      ensures Ready() && Disc() == old(Disc())[address := Splice(old(Disc())[address], off, bytes)]
      ensures io.view == old(io.view)[lba + address := Splice(old(io.view)[lba + address], off, bytes)]
      ensures io.held == old(io.held) && Slack() == old(Slack()) && Outside() == old(Outside())
    {
      NewestInPlace(io.numit, io.slots, io.dev, io.view, io.held);
      io.Store(bp, off, bytes, |io.held| - 1);
    }

    /** part_relSect */
    method RelSect(bp: nat)
      requires Ready() && io.held != [] && io.held[|io.held| - 1].bp == bp
      modifies io
      ensures Ready() && Disc() == old(Disc()) && Outside() == old(Outside())
      ensures io.held == old(io.held)[..|old(io.held)| - 1] && Slack() == old(Slack()) + 1
    {
      NewestInPlace(io.numit, io.slots, io.dev, io.view, io.held);
      io.ReleaseSector(bp, |io.held| - 1);
    }

    /** part_directSectorRead */
    method DirectSectorRead(address: nat) returns (buf: Sector)
      requires Ready() && address < count
      modifies io
      ensures Ready() && Disc() == old(Disc()) && buf == Disc()[address] && Outside() == old(Outside())
      ensures io.view == old(io.view) && buf == io.view[lba + address]
      ensures io.held == old(io.held) && Slack() == old(Slack())
    {
      buf := io.DirectSectorRead(lba + address);
    }

    /** part_directSectorWrite */
    method DirectSectorWrite(address: nat, buf: Sector)
      requires Ready() && address < count
      modifies io
      ensures Ready() && Disc() == old(Disc())[address := buf]
      ensures io.view == old(io.view)[lba + address := buf]
      ensures io.held == old(io.held) && Slack() == old(Slack()) && Outside() == old(Outside())
    {
      io.DirectSectorWrite(lba + address, buf);
    }
  }
}
