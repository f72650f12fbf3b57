/** The IO manager: a write-back sector cache with `numbuf` buffers over a block device. A buffer pointer is
    modelled by its slot number; the client's writes through the pointer are `Store`. */
module IoMan {
  import opened Arith
  import opened Bytes
  import opened Slots

  const IOM_MODE_READONLY := 1
  const IOM_MODE_READWRITE := 2
  const IOM_MODE_EXP_REQ := 4

  predicate IsReqRw(mode: nat) { mode / 2 % 2 == 1 }
  predicate IsReqExp(mode: nat) { mode / 4 % 2 == 1 }

  /** What becomes of the slot getSector hands out. Bit 1 of the mode asks for writing, bit 2 exempts the request from the
      reference count. A cached sector is only marked and counted, in eight bits; a miss reloads an unused slot, or saves
      the header of one in use first. A miss into an unused slot compares the mode exactly. */
  ghost function Handed(s: Slot, cached: bool, available: bool, address: nat, bytes: Sector, mode: nat): Slot {
    var write, exempt := mode / 2 % 2 == 1, mode / 4 % 2 == 1;
    if cached then
      s.(writable := s.writable || write, usage := if s.usage == 255 then 255 else s.usage + 1,
         reference := if exempt || s.reference == 255 then s.reference else s.reference + 1)
    else if available then
      Slot(address, true, mode == 2, 1, if exempt then 0 else 1, s.itptr, s.stack, bytes)
    else if s.itptr + 1 < |s.stack| then
      Slot(address, true, write, 1, if exempt then 0 else 1, s.itptr + 1,
           s.stack[s.itptr + 1 := Frame(s.sector, s.valid, s.writable, s.usage)], bytes)
    else s
  }

  /** Requests for reading never mark a buffer writable, and are exempt from the count if they ask for it; the plain mode for
      writing marks every buffer it gets and is counted. */
  lemma Modes(s: Slot, cached: bool, available: bool, address: nat, bytes: Sector)
    requires cached || available || s.itptr + 1 < |s.stack|
    ensures var r := Handed(s, cached, available, address, bytes, IOM_MODE_READONLY);
            (r.writable <==> cached && s.writable) && r.reference == (if !cached then 1 else if s.reference == 255 then 255 else s.reference + 1)
    ensures var r := Handed(s, cached, available, address, bytes, IOM_MODE_READONLY + IOM_MODE_EXP_REQ);
            (r.writable <==> cached && s.writable) && r.reference == if cached then s.reference else 0
    ensures var r := Handed(s, cached, available, address, bytes, IOM_MODE_READWRITE);
            r.writable && r.reference == if !cached then 1 else if s.reference == 255 then 255 else s.reference + 1
  {
  }

  /** What becomes of a slot when its newest hold is given back: the last hold on an overallocated buffer brings the
      saved sector number, status and use count back together with that sector's current bytes. */
  ghost function Released(s: Slot, view: seq<Sector>): Slot {
    if s.usage == 1 && 0 < s.itptr < |s.stack| && s.stack[s.itptr].sector < |view| then
      var f := s.stack[s.itptr];
      Slot(f.sector, f.valid, f.writable, f.usage, s.reference, s.itptr - 1, s.stack, view[f.sector])
    else if s.usage > 0 then s.(usage := s.usage - 1)
    else s
  }

  /** The first slot without a sector. */
  ghost predicate FirstInvalid(slots: seq<Slot>, bp: int) {
    0 <= bp < |slots| && !slots[bp].valid && forall i :: 0 <= i < bp ==> slots[i].valid
  }

  /** An unused slot: clean if there is a clean one, least referenced among its kind, the last of those. */
  ghost predicate LeastReferenced(slots: seq<Slot>, bp: int) {
    && 0 <= bp < |slots| && slots[bp].usage == 0
    && (slots[bp].writable <==> forall i :: 0 <= i < |slots| && slots[i].usage == 0 ==> slots[i].writable)
    && (forall i :: 0 <= i < |slots| && slots[i].usage == 0 && slots[i].writable == slots[bp].writable ==>
                      slots[bp].reference <= slots[i].reference)
    && (forall i :: bp < i < |slots| && slots[i].usage == 0 && slots[i].writable == slots[bp].writable ==>
                      slots[bp].reference < slots[i].reference)
  }

  /** The slot a request for `address` gets: the one that has the sector, else the first without a sector, else the least
      referenced unused one; else one in use, which with a single buffer is that buffer. */
  ghost predicate Picked(slots: seq<Slot>, address: nat, bp: int) {
    && 0 <= bp < |slots|
    && if Cached(slots, address) then slots[bp].valid && slots[bp].sector == address
       else if exists i :: 0 <= i < |slots| && !slots[i].valid then FirstInvalid(slots, bp)
       else if exists i :: 0 <= i < |slots| && slots[i].usage == 0 then LeastReferenced(slots, bp)
       else |slots| == 1
  }

  /** The device after a slot has been written back if it was dirty. */
  ghost function WrittenBack(dev: seq<Sector>, s: Slot): seq<Sector> {
    if s.writable && s.sector < |dev| then dev[s.sector := s.mem] else dev
  }

  /** The slots after a direct read: an uncached sector is kept in the first slot without a sector, if there is one. */
  ghost predicate ReadAhead(slots: seq<Slot>, address: nat, bytes: Sector, slots': seq<Slot>) {
    if Cached(slots, address) || forall i :: 0 <= i < |slots| ==> slots[i].valid then slots' == slots
    else exists bp :: FirstInvalid(slots, bp) && slots' == slots[bp := slots[bp].(sector := address, valid := true, mem := bytes)]
  }

  /** Slots and device after a direct write: into the slot that has the sector, else into the first without one, else to
      the device. */
  ghost predicate WrittenDirectly(slots: seq<Slot>, dev: seq<Sector>, address: nat, bytes: Sector,
                                  slots': seq<Slot>, dev': seq<Sector>) {
    if Cached(slots, address) then
      && dev' == dev
      && exists bp :: 0 <= bp < |slots| && slots[bp].valid && slots[bp].sector == address
                      && slots' == slots[bp := slots[bp].(mem := bytes, writable := true)]
    else if forall i :: 0 <= i < |slots| ==> slots[i].valid then
      slots' == slots && address < |dev| && dev' == dev[address := bytes]
    else
      && dev' == dev
      && exists bp :: FirstInvalid(slots, bp)
                      && slots' == slots[bp := Slot(address, true, true, 0, 0, slots[bp].itptr, slots[bp].stack, bytes)]
  }

  class IOManager {
    const numit: nat
    var slots: seq<Slot>            // the buffers; their number never changes
    var dev: seq<Sector>            // the block device

    ghost var view: seq<Sector>     // the flat sector map this cache and device stand for
    ghost var held: seq<Hold>       // buffers handed out and not yet released, oldest first

    ghost predicate Valid()
      reads this
    {
      CacheOk(numit, slots, dev, view, held)
    }

    /** How many buffers clients may hold at once without ever being refused. */
    ghost function Room(): nat
      reads this
    {
      Capacity(|slots|, numit)
    }

    /** No further buffer is needed, or one can be taken without reusing a buffer that is in use. */
    ghost predicate Available(address: nat)
      reads this
    {
      Cached(slots, address) || exists i :: 0 <= i < |slots| && slots[i].usage == 0
    }

    /** A buffer with that sector can count one more use. */
    ghost predicate UsedLess(address: nat)
      reads this
    {
      forall i :: 0 <= i < |slots| && slots[i].valid && slots[i].sector == address ==> slots[i].usage < 0xFF
    }

    function Buffer(bp: nat): Sector
      requires bp < |slots|
      reads this
    {
      slots[bp].mem
    }

    /** ioman_init and ioman_reset: all headers cleared; buffer memory and reference counts are whatever they were. */
    constructor (numit: nat, dev: seq<Sector>, mem: seq<Sector>, reference: seq<Byte>)
      requires 0 < |mem| == |reference| && numit <= 0xFF
      ensures Valid() && view == dev && this.dev == dev && held == []
      ensures |slots| == |mem| && this.numit == numit
    {
      this.numit := numit;
      slots := seq(|mem|, i requires 0 <= i < |mem| =>
                     Slot(0, false, false, 0, reference[i], 0, seq(numit + 1, _ => Frame(0, false, false, 0)), mem[i]));
      this.dev, view, held := dev, dev, [];
    }

    /** ioman_findSectorInCache */
    method FindSectorInCache(address: nat) returns (bp: int)
      ensures bp == -1 <==> !Cached(slots, address)
      ensures bp != -1 ==> 0 <= bp < |slots| && slots[bp].valid && slots[bp].sector == address
    {
      for c := 0 to |slots|
        invariant forall i :: 0 <= i < c ==> !(slots[i].valid && slots[i].sector == address)
      {
        if slots[c].valid && slots[c].sector == address { return c; }
      }
      return -1;
    }

    /** ioman_findFreeSpot */
    method FindFreeSpot() returns (bp: int)
      ensures bp == -1 <==> forall i :: 0 <= i < |slots| ==> slots[i].valid
      ensures bp != -1 ==> FirstInvalid(slots, bp)
    {
      for c := 0 to |slots|
        invariant forall i :: 0 <= i < c ==> slots[i].valid
      {
        if !slots[c].valid { return c; }
      }
      return -1;
    }

    /** ioman_findUnusedSpot: an unused buffer, clean if there is a clean one, least referenced among its kind,
        the last of those. */
    method FindUnusedSpot() returns (r: int)
      requires forall i :: 0 <= i < |slots| ==> slots[i].reference <= 0xFF
      ensures r == -1 <==> forall i :: 0 <= i < |slots| ==> slots[i].usage != 0
      ensures r != -1 ==> LeastReferenced(slots, r)
    {
      r := -1;
      var fr, lr := false, 0xFF;
      for c := 0 to |slots|
        invariant r == -1 || 0 <= r < c
        invariant r == -1 ==> !fr && lr == 0xFF && forall i :: 0 <= i < c ==> slots[i].usage != 0
        invariant r != -1 ==> slots[r].usage == 0 && slots[r].writable == !fr && lr == slots[r].reference
        invariant !fr ==> forall i :: 0 <= i < c && slots[i].usage == 0 ==> slots[i].writable
        invariant forall i :: 0 <= i < c && slots[i].usage == 0 && slots[i].writable == !fr ==> lr <= slots[i].reference
        invariant r != -1 ==> forall i :: r < i < c && slots[i].usage == 0 && slots[i].writable == !fr ==>
                                            lr < slots[i].reference
      {
        if slots[c].usage == 0 {
          if !slots[c].writable && !fr {
            fr, lr, r := true, 0xFF, -1;
          }
          if slots[c].writable && !fr {
            if slots[c].reference <= lr {
              r, lr := c, slots[c].reference;
            }
          }
          if fr && !slots[c].writable {
            if slots[c].reference <= lr {
              r, lr := c, slots[c].reference;
            }
          }
        }
      }
    }

    /** The score of one slot, accumulated in eight bits: it never wraps and stays below the sentinel 0xFF. */
    method Points(c: nat) returns (points: nat)
      requires c < |slots| && slots[c].itptr < numit <= 0xFF && slots[c].reference <= 0xFF
      ensures points == Score(slots[c].writable, slots[c].itptr, numit, slots[c].reference)
      ensures points == (if slots[c].writable then 127 else 0) + 77 * slots[c].itptr / numit + 51 * slots[c].reference / 255 < 255
    {
      ScoreFits(slots[c].writable, slots[c].itptr, numit, slots[c].reference);
      ScoreInEightBits(slots[c].writable, slots[c].itptr, numit, slots[c].reference);
      points := 0;
      if slots[c].writable { points := points + 0x7F; }
      points := (points + Div(slots[c].itptr * 0x4D % UINT16, numit)) % 256;
      points := (points + slots[c].reference * 0x33 % UINT16 / 0xFF) % 256;
    }

    /** ioman_findOverallocableSpot: the first slot of least score among those whose stack has room. */
    method FindOverallocableSpot() returns (r: int)
      requires numit <= 0xFF && forall i :: 0 <= i < |slots| ==> slots[i].reference <= 0xFF
      ensures r == -1 <==> forall i :: 0 <= i < |slots| ==> slots[i].itptr >= numit
      ensures r != -1 ==> 0 <= r < |slots| && slots[r].itptr < numit
      ensures r != -1 ==> forall i :: 0 <= i < |slots| && slots[i].itptr < numit ==>
                                        var sr := Score(slots[r].writable, slots[r].itptr, numit, slots[r].reference);
                                        var si := Score(slots[i].writable, slots[i].itptr, numit, slots[i].reference);
                                        sr <= si && (i < r ==> sr < si)
    {
      r := -1;
      var lp := 0xFF;
      for c := 0 to |slots|
        invariant r == -1 || 0 <= r < c
        invariant r == -1 ==> lp == 0xFF && forall i :: 0 <= i < c ==> slots[i].itptr >= numit
        invariant r != -1 ==> slots[r].itptr < numit && lp == Score(slots[r].writable, slots[r].itptr, numit, slots[r].reference)
        invariant r != -1 ==> forall i :: 0 <= i < c && slots[i].itptr < numit ==>
                                            var si := Score(slots[i].writable, slots[i].itptr, numit, slots[i].reference);
                                            lp <= si && (i < r ==> lp < si)
      {
        if slots[c].itptr < numit {
          var points := Points(c);
          if points < lp {
            lp, r := points, c;
          }
        }
      }
    }

    /** ioman_flushSector, as its effect on the device. */
    method FlushSector(bp: nat)
      requires Valid() && bp < |slots|
      modifies this`dev
      ensures Valid() && Settled(slots[bp], dev) && |dev| == |old(dev)|
      ensures dev == if slots[bp].writable then old(dev)[slots[bp].sector := slots[bp].mem] else old(dev)
    {
      assert SlotAgrees(slots[bp], dev, view) && slots[bp].Shaped(numit);
      if slots[bp].writable {
        FlushOk(numit, slots, dev, view, held, bp);
        dev := dev[slots[bp].sector := slots[bp].mem];
      }
    }

    /** ioman_getSector. The represented map does not change, the buffer handed out holds the sector's current
        bytes, and buffers held before stay held. A request is refused exactly when the sector is not cached, every
        buffer is in use and every stack is full. A read-write miss into an unused buffer marks it writable only
        for the exact mode IOM_MODE_READWRITE. */
    method GetSector(address: nat, mode: nat) returns (bp: int)
      requires Valid() && address < |dev| && UsedLess(address)
      requires |slots| == 1 || Available(address)
      modifies this
      ensures Valid() && view == old(view) && |dev| == |old(dev)| && |slots| == |old(slots)|
      ensures bp == -1 <==> old(!Available(address) && slots[0].itptr >= numit)
      ensures bp == -1 ==> slots == old(slots) && dev == old(dev) && held == old(held)
      ensures bp != -1 ==> 0 <= bp < |slots| && Buffer(bp) == view[address]
                           && held == old(held) + [Hold(bp, address, slots[bp].writable)]
      ensures bp != -1 ==> slots == old(slots)[bp := Handed(old(slots)[bp], old(Cached(slots, address)),
                                                            old(Available(address)), address, view[address], mode)]
      ensures bp != -1 ==> Picked(old(slots), address, bp)
      ensures bp != -1 ==> dev == if old(Cached(slots, address)) then old(dev) else WrittenBack(old(dev), old(slots)[bp])
      ensures bp != -1 && mode == IOM_MODE_READWRITE ==> slots[bp].writable
      ensures |old(held)| < old(Room()) ==> bp != -1
    {
      hide CacheOk, Slot.Shaped, Handed;
      if |held| < Room() { CapacitySuffices(numit, slots, dev, view, held); }
      CacheFacts(numit, slots, dev, view, held);
      bp := FindSectorInCache(address);
      if bp != -1 {
        HandHit(bp, mode);
        return;
      }
      bp := FindFreeSpot();
      if bp == -1 {
        bp := FindUnusedSpot();
      }
      if bp != -1 {
        HandUnused(bp, address, mode);
        return;
      }
      bp := FindOverallocableSpot();
      if bp != -1 {
        HandInUse(address, mode);
        return;
      }
      return -1;
    }

    /** getSector when the sector is cached. */
    method HandHit(bp: nat, mode: nat)
      requires Valid() && bp < |slots| && slots[bp].valid && slots[bp].usage < 0xFF
      modifies this`slots, this`held
      ensures Valid() && |slots| == |old(slots)| && slots[bp].sector < |view|
      ensures slots == old(slots)[bp := Handed(old(slots)[bp], true, true, slots[bp].sector, view[slots[bp].sector], mode)]
      ensures slots[bp].sector == old(slots[bp].sector) && (mode == IOM_MODE_READWRITE ==> slots[bp].writable)
      ensures held == old(held) + [Hold(bp, slots[bp].sector, slots[bp].writable)]
      ensures Buffer(bp) == view[slots[bp].sector]
    {
      HitOk(numit, slots, dev, view, held, bp, IsReqRw(mode), IsReqExp(mode));
      slots := slots[bp := slots[bp].Hand(IsReqRw(mode), IsReqExp(mode))];
      held := held + [Hold(bp, slots[bp].sector, slots[bp].writable)];
    }

    /** getSector into a buffer that is not in use, writing it back first if it is dirty. */
    method HandUnused(bp: nat, address: nat, mode: nat)
      requires Valid() && bp < |slots| && slots[bp].usage == 0
      requires address < |dev| && !Cached(slots, address)
      modifies this`slots, this`held, this`dev
      ensures Valid() && |dev| == |old(dev)| && dev == WrittenBack(old(dev), old(slots)[bp])
      ensures slots == old(slots)[bp := Handed(old(slots)[bp], false, true, address, view[address], mode)]
      ensures mode == IOM_MODE_READWRITE ==> slots[bp].writable
      ensures held == old(held) + [Hold(bp, address, slots[bp].writable)] && Buffer(bp) == view[address]
    {
      assert SlotAgrees(slots[bp], dev, view);
      if slots[bp].writable {
        FlushSector(bp);
      }
      MissOk(numit, slots, dev, view, held, bp, address, mode == IOM_MODE_READWRITE, IsReqExp(mode));
      var s := slots[bp].Reset();
      s := s.Load(address, dev[address]);
      s := s.Hand(mode == IOM_MODE_READWRITE, IsReqExp(mode));
      slots := slots[bp := s];
      held := held + [Hold(bp, address, s.writable)];
    }

    /** getSector into the only buffer although it is in use: overallocation. */
    method HandInUse(address: nat, mode: nat)
      requires Valid() && |slots| == 1 && slots[0].usage > 0 && slots[0].itptr < numit
      requires address < |dev| && !Cached(slots, address)
      modifies this`slots, this`held, this`dev
      ensures Valid() && |dev| == |old(dev)| && dev == WrittenBack(old(dev), old(slots)[0])
      ensures slots == old(slots)[0 := Handed(old(slots)[0], false, false, address, view[address], mode)]
      ensures mode == IOM_MODE_READWRITE ==> slots[0].writable
      ensures held == old(held) + [Hold(0, address, slots[0].writable)] && Buffer(0) == view[address]
    {
      assert SlotAgrees(slots[0], dev, view);
      if slots[0].writable {
        FlushSector(0);
      }
      OverallocateOk(numit, slots, dev, view, held, address, IsReqRw(mode), IsReqExp(mode));
      var s := slots[0].Push();
      s := s.Reset();
      s := s.Load(address, dev[address]);
      s := s.Hand(IsReqRw(mode), IsReqExp(mode));
      slots := slots[0 := s];
      held := held + [Hold(0, address, s.writable)];
    }

    /** ioman_releaseSector for hold `k`: with several buffers any hold, with one buffer any hold on the sector asked for
        last. The represented map does not change; when the use count drops to zero over a saved header, that sector
        number, status and use count come back and the sector's current bytes are in the buffer again. */
    method ReleaseSector(bp: nat, ghost k: nat)
      requires Valid() && Reachable(|slots|, held, k) && held[k].bp == bp
      modifies this
      ensures Valid() && view == old(view) && |dev| == |old(dev)| && |slots| == |old(slots)|
      ensures held == Without(old(held), k) && Shown(slots, view, held)
      ensures bp < |slots| && slots == old(slots)[bp := Released(old(slots)[bp], view)]
      ensures dev == if old(slots[bp].usage == 1 && slots[bp].itptr != 0) then WrittenBack(old(dev), old(slots)[bp]) else old(dev)
    {
      hide CacheOk, Reachable, Shown, Without;
      HoldInPlace(numit, slots, dev, view, held, k);
      CacheFacts(numit, slots, dev, view, held);
      if slots[bp].usage == 1 && slots[bp].itptr != 0 {
        assert k == |held| - 1;
        NewestInPlace(numit, slots, dev, view, held);
        Restore();
      } else {
        Drop(bp, k);
      }
    }

    /** releaseSector, nothing to bring back. */
    method Drop(bp: nat, ghost k: nat)
      requires Valid() && bp < |slots| && Reachable(|slots|, held, k) && held[k].bp == bp && slots[bp].usage > 0
      requires slots[bp].usage > 1 || slots[bp].itptr == 0
      modifies this`slots, this`held
      ensures Valid() && held == Without(old(held), k) && Shown(slots, view, held)
      ensures slots == old(slots)[bp := old(slots[bp]).(usage := old(slots[bp].usage) - 1)]
    {
      hide CacheOk, Shown, Without;
      ReleaseOk(numit, slots, dev, view, held, k);
      slots := slots[bp := slots[bp].(usage := slots[bp].usage - 1)];
      held := Without(held, k);
      AllInPlace(numit, slots, dev, view, held);
    }

    /** releaseSector, the last use of an overallocated buffer: bring the saved header and its sector back. */
    method Restore()
      requires Valid() && |slots| == 1 && slots[0].usage == 1 && slots[0].itptr > 0
      modifies this`slots, this`held, this`dev
      ensures Valid() && |dev| == |old(dev)| && held == old(held)[..|old(held)| - 1] && Shown(slots, view, held)
      ensures slots == old(slots)[0 := Released(old(slots)[0], view)] && dev == WrittenBack(old(dev), old(slots)[0])
    {
      if slots[0].writable {
        FlushSector(0);
      }
      PopOk(numit, slots, dev, view, held);
      var s := slots[0].Pop();
      slots := slots[0 := s.Load(s.sector, dev[s.sector])];
      held := held[..|held| - 1];
      assert SlotAgrees(slots[0], dev, view);
      AllInPlace(numit, slots, dev, view, held);
    }

    /** A client's write through the buffer of hold `k`: with several buffers any hold, with one buffer any hold on the
        sector asked for last. */
    method Store(bp: nat, off: nat, bytes: seq<Byte>, ghost k: nat)
      requires Valid() && Reachable(|slots|, held, k) && held[k].bp == bp && held[k].rw
      requires off + |bytes| <= SECTOR_SIZE
      modifies this`slots, this`view
      ensures Valid() && Shown(slots, view, held) && |slots| == |old(slots)|
      ensures var a := held[k].address;
              a < |old(view)| && view == old(view)[a := Splice(old(view)[a], off, bytes)]
      ensures bp < |old(slots)| && slots == old(slots)[bp := old(slots)[bp].(mem := Splice(old(slots)[bp].mem, off, bytes))]
    {
      hide CacheOk, Reachable, Shown;
      HoldInPlace(numit, slots, dev, view, held, k);
      var mem: Sector := Splice(slots[bp].mem, off, bytes);
      StoreOk(numit, slots, dev, view, held, bp, mem);
      assert slots[bp].(mem := mem, writable := true) == slots[bp].(mem := mem);
      view := view[slots[bp].sector := mem];
      slots := slots[bp := slots[bp].(mem := mem)];
      AllInPlace(numit, slots, dev, view, held);
    }

    /** ioman_directSectorRead */
    method DirectSectorRead(address: nat) returns (buf: Sector)
      requires Valid() && address < |dev|
      modifies this`slots
      ensures Valid() && buf == view[address] && |slots| == |old(slots)|
      ensures Shown(slots, view, held) && ReadAhead(old(slots), address, buf, slots)
    {
      var bp := FindSectorInCache(address);
      if bp != -1 {
        assert SlotAgrees(slots[bp], dev, view);
        buf := slots[bp].mem;
      } else {
        bp := FindFreeSpot();
        if bp != -1 {
          PrefetchOk(numit, slots, dev, view, held, bp, address);
          slots := slots[bp := slots[bp].Load(address, dev[address])];
          buf := slots[bp].mem;
        } else {
          buf := dev[address];
        }
      }
      AllInPlace(numit, slots, dev, view, held);
    }

    /** ioman_directSectorWrite */
    method DirectSectorWrite(address: nat, buf: Sector)
      requires Valid() && address < |dev|
      modifies this`slots, this`dev, this`view
      ensures Valid() && view == old(view)[address := buf] && |dev| == |old(dev)| && |slots| == |old(slots)|
      ensures Shown(slots, view, held) && WrittenDirectly(old(slots), old(dev), address, buf, slots, dev)
    {
      var bp := FindSectorInCache(address);
      if bp != -1 {
        StoreOk(numit, slots, dev, view, held, bp, buf);
        slots := slots[bp := slots[bp].(mem := buf, writable := true)];
      } else {
        bp := FindFreeSpot();
        if bp != -1 {
          FillOk(numit, slots, dev, view, held, bp, address, buf);
          slots := slots[bp := slots[bp].Reset().(sector := address, writable := true, valid := true, mem := buf)];
        } else {
          WriteThroughOk(numit, slots, dev, view, held, address, buf);
          dev := dev[address := buf];
        }
      }
      view := view[address := buf];
      AllInPlace(numit, slots, dev, view, held);
    }
  }
}
