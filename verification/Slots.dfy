/** The sector cache as values: slots, the overallocation stack, the buffers clients hold,
    and what it means for all of them to agree with one flat sector map. */
module Slots {
  import opened Arith
  import opened Bytes

  /** A slot header as it is saved on the overallocation stack: sector number, the VALIDDATA and WRITE status bits,
      and the use count. */
  datatype Frame = Frame(sector: nat, valid: bool, writable: bool, usage: nat)

  /** One buffer of the cache with its bookkeeping. `stack[1..itptr + 1]` are its saved headers. */
  datatype Slot = Slot(sector: nat, valid: bool, writable: bool, usage: nat, reference: nat,
                       itptr: nat, stack: seq<Frame>, mem: Sector)
  {
    function Header(): Frame {
      Frame(sector, valid, writable, usage)
    }

    /** The saved headers, oldest first. */
    function Frames(): seq<Frame>
      requires itptr < |stack|
    {
      stack[1..itptr + 1]
    }

    /** ioman_resetCacheItem */
    function Reset(): Slot {
      this.(sector := 0, valid := false, writable := false, usage := 0, reference := 0)
    }

    /** ioman_putSectorInCache, the device read succeeding. */
    function Load(address: nat, bytes: Sector): Slot {
      this.(mem := bytes, valid := true, sector := address)
    }

    /** The end of every getSector path: mark writable if asked, count the use and, unless exempt, the reference;
        both counts saturate. */
    function Hand(mark: bool, exempt: bool): Slot {
      this.(writable := writable || mark,
            usage := if usage == 0xFF then usage else usage + 1,
            reference := if exempt || reference == 0xFF then reference else reference + 1)
    }

    /** ioman_push, the stack having room. */
    function Push(): Slot
      requires itptr + 1 < |stack|
    {
      this.(itptr := itptr + 1, stack := stack[itptr + 1 := Header()])
    }

    /** ioman_pop, the stack not being empty. */
    function Pop(): Slot
      requires 0 < itptr < |stack|
    {
      var f := stack[itptr];
      this.(sector := f.sector, valid := f.valid, writable := f.writable, usage := f.usage, itptr := itptr - 1)
    }

    ghost predicate Shaped(numit: nat) {
      && |stack| == numit + 1 && itptr <= numit
      && usage <= 0xFF && reference <= 0xFF
      && (!valid ==> !writable && usage == 0 && itptr == 0)
    }
  }

  /** A buffer some client obtained and has not released: its slot, the sector asked for, and whether the
      slot was marked writable when it was handed out. */
  datatype Hold = Hold(bp: nat, address: nat, rw: bool)

  ghost predicate Cached(slots: seq<Slot>, address: nat) {
    exists i :: 0 <= i < |slots| && slots[i].valid && slots[i].sector == address
  }

  ghost predicate SlotAgrees(s: Slot, dev: seq<Sector>, view: seq<Sector>)
    requires |dev| == |view|
  {
    s.valid ==>
      && s.sector < |dev|
      && s.mem == view[s.sector]
      && (s.writable || dev[s.sector] == s.mem)
  }

  /** The slots and the device together represent the flat map `view`: a valid slot holds the current bytes of
      its sector, a clean one equals the device, no sector sits in two slots, and the device is up to date
      for every sector that is not cached. */
  ghost predicate Coherent(slots: seq<Slot>, dev: seq<Sector>, view: seq<Sector>) {
    && |dev| == |view|
    && (forall i :: 0 <= i < |slots| ==> SlotAgrees(slots[i], dev, view))
    && (forall i, j :: 0 <= i < j < |slots| && slots[i].valid && slots[j].valid ==> slots[i].sector != slots[j].sector)
    && (forall a :: 0 <= a < |dev| && !Cached(slots, a) ==> dev[a] == view[a])
  }

  /** Writing a slot back leaves the represented map alone. */
  lemma FlushKeepsCoherent(slots: seq<Slot>, dev: seq<Sector>, view: seq<Sector>, bp: nat)
    requires Coherent(slots, dev, view) && bp < |slots| && slots[bp].valid
    ensures Coherent(slots, dev[slots[bp].sector := slots[bp].mem], view)
  {
    var dev' := dev[slots[bp].sector := slots[bp].mem];
    forall i | 0 <= i < |slots| ensures SlotAgrees(slots[i], dev', view) {
      assert SlotAgrees(slots[i], dev, view);
      assert SlotAgrees(slots[bp], dev, view);
    }
  }

  /** Replacing a slot that the device does not depend on by a fresh copy of an uncached sector. */
  lemma LoadKeepsCoherent(slots: seq<Slot>, dev: seq<Sector>, view: seq<Sector>, bp: nat, s: Slot)
    requires Coherent(slots, dev, view) && bp < |slots|
    requires slots[bp].valid ==> dev[slots[bp].sector] == slots[bp].mem
    requires s.valid && s.sector < |dev| && s.mem == dev[s.sector]
    requires !Cached(slots, s.sector) || (slots[bp].valid && slots[bp].sector == s.sector)
    ensures Coherent(slots[bp := s], dev, view)
  {
    var slots' := slots[bp := s];
    if slots[bp].valid && slots[bp].sector == s.sector {
      assert SlotAgrees(slots[bp], dev, view);
    }
    assert dev[s.sector] == view[s.sector];
    assert SlotAgrees(slots[bp], dev, view);
    forall a | Cached(slots, a) && !(slots[bp].valid && slots[bp].sector == a) ensures Cached(slots', a) {
      var i :| 0 <= i < |slots| && slots[i].valid && slots[i].sector == a;
      assert slots'[i] == slots[i];
    }
    assert slots'[bp] == s;
    forall i | 0 <= i < |slots'| ensures SlotAgrees(slots'[i], dev, view) {
      assert i != bp ==> SlotAgrees(slots[i], dev, view);
    }
    forall i, j | 0 <= i < j < |slots'| && slots'[i].valid && slots'[j].valid
      ensures slots'[i].sector != slots'[j].sector
    {
      assert i != bp ==> slots'[i] == slots[i];
      assert j != bp ==> slots'[j] == slots[j];
    }
  }

  /** Changing only counters, or marking a slot dirty, is invisible. */
  lemma MarkKeepsCoherent(slots: seq<Slot>, dev: seq<Sector>, view: seq<Sector>, bp: nat, s: Slot)
    requires Coherent(slots, dev, view) && bp < |slots|
    requires s.sector == slots[bp].sector && s.valid == slots[bp].valid && s.mem == slots[bp].mem
    requires slots[bp].writable ==> s.writable
    ensures Coherent(slots[bp := s], dev, view)
  {
    var slots' := slots[bp := s];
    forall i | 0 <= i < |slots'| ensures SlotAgrees(slots'[i], dev, view) {
      assert SlotAgrees(slots[i], dev, view);
    }
    forall a | Cached(slots, a) ensures Cached(slots', a) {
      var i :| 0 <= i < |slots| && slots[i].valid && slots[i].sector == a;
      assert slots'[i].valid && slots'[i].sector == a;
    }
  }

  /** Writing into a buffer marked writable writes the flat map. */
  lemma StoreKeepsCoherent(slots: seq<Slot>, dev: seq<Sector>, view: seq<Sector>, bp: nat, s: Slot)
    requires Coherent(slots, dev, view) && bp < |slots| && slots[bp].valid
    requires s.sector == slots[bp].sector && s.valid && s.writable
    ensures s.sector < |view|
    ensures Coherent(slots[bp := s], dev, view[s.sector := s.mem])
  {
    assert SlotAgrees(slots[bp], dev, view);
    var slots', view' := slots[bp := s], view[s.sector := s.mem];
    forall i | 0 <= i < |slots'| ensures SlotAgrees(slots'[i], dev, view') {
      assert SlotAgrees(slots[i], dev, view);
      if i < bp { assert slots[i].valid ==> slots[i].sector != slots[bp].sector; }
      if bp < i { assert slots[i].valid ==> slots[bp].sector != slots[i].sector; }
    }
    forall a | Cached(slots, a) ensures Cached(slots', a) {
      var i :| 0 <= i < |slots| && slots[i].valid && slots[i].sector == a;
      assert slots'[i].valid && slots'[i].sector == a;
    }
    assert slots'[bp].valid && slots'[bp].sector == s.sector;
  }

  /** Filling an empty slot with new contents of an uncached sector writes the flat map. */
  lemma FillKeepsCoherent(slots: seq<Slot>, dev: seq<Sector>, view: seq<Sector>, bp: nat, s: Slot)
    requires Coherent(slots, dev, view) && bp < |slots| && !slots[bp].valid
    requires s.valid && s.writable && s.sector < |dev| && !Cached(slots, s.sector)
    ensures Coherent(slots[bp := s], dev, view[s.sector := s.mem])
  {
    LoadKeepsCoherent(slots, dev, view, bp, s.(mem := dev[s.sector]));
    StoreKeepsCoherent(slots[bp := s.(mem := dev[s.sector])], dev, view, bp, s);
    assert slots[bp := s.(mem := dev[s.sector])][bp := s] == slots[bp := s];
  }

  /** Writing the device behind an uncached sector writes the flat map. */
  lemma DirectWriteKeepsCoherent(slots: seq<Slot>, dev: seq<Sector>, view: seq<Sector>, a: nat, bytes: Sector)
    requires Coherent(slots, dev, view) && a < |dev| && !Cached(slots, a)
    ensures Coherent(slots, dev[a := bytes], view[a := bytes])
  {
    forall i | 0 <= i < |slots| ensures SlotAgrees(slots[i], dev[a := bytes], view[a := bytes]) {
      assert SlotAgrees(slots[i], dev, view);
    }
  }

  // ---- buffers held by clients ----

  function CountHolds(held: seq<Hold>, bp: nat): (n: nat)
    ensures n <= |held|
    ensures n == 0 ==> forall k :: 0 <= k < |held| ==> held[k].bp != bp
  {
    if held == [] then 0
    else (if held[|held| - 1].bp == bp then 1 else 0) + CountHolds(held[..|held| - 1], bp)
  }

  ghost predicate Matches(h: Hold, bp: nat, sector: nat, writable: bool) {
    h.bp == bp && h.address == sector && (h.rw ==> writable)
  }

  /** With several buffers no slot is overallocated: every hold is in its slot and use counts count holds. */
  ghost predicate Spread(slots: seq<Slot>, held: seq<Hold>) {
    && (forall k :: 0 <= k < |held| ==>
          var h := held[k]; h.bp < |slots| && slots[h.bp].valid && Matches(h, h.bp, slots[h.bp].sector, slots[h.bp].writable))
    && (forall i :: 0 <= i < |slots| ==> slots[i].usage == CountHolds(held, i))
  }

  /** With one buffer the holds are nested: the innermost `top.usage` holds are on the sector in the buffer,
      the ones before them on the sector of the topmost saved frame, and so on. */
  ghost predicate Nested(top: Frame, frames: seq<Frame>, held: seq<Hold>, limit: nat)
    decreases |frames|
  {
    && top.usage <= |held|
    && (forall k :: |held| - top.usage <= k < |held| ==> Matches(held[k], 0, top.sector, top.writable))
    && (held != [] || frames != [] ==> top.usage > 0 && top.valid)
    && (frames == [] ==> top.usage == |held|)
    && (frames != [] ==>
          var below := frames[|frames| - 1];
          && below.sector < limit && below.sector != top.sector
          && 0 < below.usage <= 0xFF
          && Nested(below, frames[..|frames| - 1], held[..|held| - top.usage], limit))
  }

  /** Fewer holds than buffers leave a buffer unused. */
  lemma UnusedSlotExists(slots: seq<Slot>, held: seq<Hold>)
    requires Spread(slots, held) && |held| < |slots|
    ensures exists i :: 0 <= i < |slots| && slots[i].usage == 0
  {
    var all, used := Below(|slots|), HeldSlots(held);
    HeldSlotsFew(held);
    if all <= used {
      SubsetSize(all, used);
    }
    var i :| i in all && i !in used;
    assert slots[i].usage == CountHolds(held, i);
    if CountHolds(held, i) > 0 { BpHeld(held, i); }
  }

  ghost function Below(n: nat): (s: set<nat>)
    ensures |s| == n
    ensures forall i: nat :: i in s <==> i < n
  {
    if n == 0 then {} else Below(n - 1) + {n - 1}
  }

  ghost function HeldSlots(held: seq<Hold>): set<nat> {
    set k | 0 <= k < |held| :: held[k].bp
  }

  lemma HeldSlotsOn(held: seq<Hold>)
    requires held != []
    ensures var n := |held| - 1; HeldSlots(held) == HeldSlots(held[..n]) + {held[n].bp}
  {
  }

  lemma AddOne<T>(s: set<T>, x: T)
    ensures |s + {x}| == |s| + if x in s then 0 else 1
  {
    if x in s { assert s + {x} == s; }
  }

  lemma {:induction false} HeldSlotsFew(held: seq<Hold>)
    ensures |HeldSlots(held)| <= |held|
  {
    if held != [] {
      HeldSlotsOn(held);
      HeldSlotsFew(held[..|held| - 1]);
      AddOne(HeldSlots(held[..|held| - 1]), held[|held| - 1].bp);
    }
  }

  lemma {:induction false} HoldCounted(held: seq<Hold>, k: nat)
    requires k < |held|
    ensures CountHolds(held, held[k].bp) > 0
  {
    var n := |held| - 1;
    if k < n { HoldCounted(held[..n], k); }
  }

  lemma {:induction false} BpHeld(held: seq<Hold>, bp: nat)
    requires CountHolds(held, bp) > 0
    ensures exists k :: 0 <= k < |held| && held[k].bp == bp
  {
    var n := |held| - 1;
    if held[n].bp != bp {
      BpHeld(held[..n], bp);
      var k :| 0 <= k < n && held[..n][k].bp == bp;
      assert held[k].bp == bp;
    }
  }

  lemma {:induction false} SubsetSize<T>(a: set<T>, b: set<T>)
    requires a <= b
    ensures |a| <= |b|
    decreases |a|
  {
    if a != {} {
      var x :| x in a;
      SubsetSize(a - {x}, b - {x});
    }
  }

  /** Every saved frame and a used buffer account for at least one hold each. */
  lemma FramesFitHolds(top: Frame, frames: seq<Frame>, held: seq<Hold>, limit: nat)
    requires Nested(top, frames, held, limit)
    ensures |held| >= |frames| + (if top.usage > 0 then 1 else 0)
    decreases |frames|
  {
    if frames != [] {
      FramesFitHolds(frames[|frames| - 1], frames[..|frames| - 1], held[..|held| - top.usage], limit);
    }
  }

  /** The holds are consistent with the slots and, for a single buffer, with its saved headers. */
  ghost predicate HoldsFit(slots: seq<Slot>, held: seq<Hold>, limit: nat) {
    if |slots| == 1 then
      slots[0].itptr < |slots[0].stack| && Nested(slots[0].Header(), slots[0].Frames(), held, limit)
    else
      Spread(slots, held) && forall i :: 0 <= i < |slots| ==> slots[i].itptr == 0
  }

  /** A slot may be handed out once more if its sector stays, or if nobody was using it. */
  lemma HoldOneMore(slots: seq<Slot>, held: seq<Hold>, limit: nat, bp: nat, s: Slot)
    requires HoldsFit(slots, held, limit) && bp < |slots|
    requires s.valid && s.usage == slots[bp].usage + 1 && s.itptr == slots[bp].itptr && s.stack == slots[bp].stack
    requires slots[bp].usage == 0 || (s.sector == slots[bp].sector && (slots[bp].writable ==> s.writable))
    ensures HoldsFit(slots[bp := s], held + [Hold(bp, s.sector, s.writable)], limit)
  {
    if |slots| == 1 {
      NestedMore(slots[0].Header(), slots[0].Frames(), held, limit, s.Header());
      assert s.Frames() == slots[0].Frames();
    } else {
      SpreadMore(slots, held, bp, s);
    }
  }

  lemma NestedMore(top: Frame, frames: seq<Frame>, held: seq<Hold>, limit: nat, s: Frame)
    requires Nested(top, frames, held, limit) && s.valid && s.usage == top.usage + 1
    requires top.usage == 0 || (s.sector == top.sector && (top.writable ==> s.writable))
    ensures Nested(s, frames, held + [Hold(0, s.sector, s.writable)], limit)
  {
    var held' := held + [Hold(0, s.sector, s.writable)];
    assert held'[..|held'| - s.usage] == held[..|held| - top.usage];
    forall k | |held'| - s.usage <= k < |held'| ensures Matches(held'[k], 0, s.sector, s.writable) {
      assert k < |held| ==> Matches(held[k], 0, top.sector, top.writable);
    }
  }

  lemma SpreadMore(slots: seq<Slot>, held: seq<Hold>, bp: nat, s: Slot)
    requires Spread(slots, held) && bp < |slots| && s.valid && s.usage == slots[bp].usage + 1
    requires slots[bp].usage == 0 || (s.sector == slots[bp].sector && (slots[bp].writable ==> s.writable))
    ensures Spread(slots[bp := s], held + [Hold(bp, s.sector, s.writable)])
  {
    var slots', held' := slots[bp := s], held + [Hold(bp, s.sector, s.writable)];
    assert held'[..|held'| - 1] == held;
    assert slots[bp].usage == CountHolds(held, bp);
    forall i | 0 <= i < |slots'| ensures slots'[i].usage == CountHolds(held', i) {
      assert slots[i].usage == CountHolds(held, i);
    }
  }

  /** `s` without its element `k`. */
  function Without<T>(s: seq<T>, k: nat): (r: seq<T>)
    requires k < |s|
    ensures |r| == |s| - 1
  {
    s[..k] + s[k + 1..]
  }

  lemma {:induction false} CountWithout(held: seq<Hold>, k: nat, bp: nat)
    requires k < |held|
    ensures CountHolds(Without(held, k), bp) == CountHolds(held, bp) - if held[k].bp == bp then 1 else 0
  {
    var n := |held| - 1;
    if k == n {
      assert Without(held, k) == held[..n];
    } else {
      CountWithout(held[..n], k, bp);
      assert Without(held, k)[..n - 1] == Without(held[..n], k);
      assert Without(held, k)[n - 1] == held[n] && held[..n][k] == held[k];
      hide Without;
    }
  }

  /** Which holds clients can use: with several buffers all of them, with one buffer those on the sector asked for last. */
  ghost predicate Reachable(numbuf: nat, held: seq<Hold>, k: nat) {
    k < |held| && (numbuf > 1 || forall j :: k <= j < |held| ==> held[j].address == held[k].address)
  }

  /** With one buffer those are the holds the use count in the buffer's header counts. */
  lemma ReachableCounted(top: Frame, frames: seq<Frame>, held: seq<Hold>, limit: nat, k: nat)
    requires Nested(top, frames, held, limit) && Reachable(1, held, k)
    ensures |held| - top.usage <= k
  {
    if frames != [] { FramesDiffer(top, frames, held, limit); }
  }

  /** Where the holds of one frame end, the sector changes. */
  lemma FramesDiffer(top: Frame, frames: seq<Frame>, held: seq<Hold>, limit: nat)
    requires Nested(top, frames, held, limit) && frames != []
    ensures var b := |held| - top.usage; 0 < b < |held| && held[b - 1].address != held[b].address
  {
    var b := |held| - top.usage;
    var below := frames[|frames| - 1];
    assert Matches(held[b], 0, top.sector, top.writable);
    assert Matches(held[..b][b - 1], 0, below.sector, below.writable);
  }

  /** Giving back a reachable hold, unless that must bring a saved header back. */
  lemma HoldOneLess(slots: seq<Slot>, held: seq<Hold>, limit: nat, k: nat, s: Slot)
    requires HoldsFit(slots, held, limit) && 0 < |slots| && Reachable(|slots|, held, k)
    requires var bp := held[k].bp;
             && bp < |slots| && slots[bp].usage > 0 && (slots[bp].usage > 1 || slots[bp].itptr == 0)
             && s == slots[bp].(usage := slots[bp].usage - 1)
    ensures HoldsFit(slots[held[k].bp := s], Without(held, k), limit)
  {
    if |slots| == 1 {
      ReachableCounted(slots[0].Header(), slots[0].Frames(), held, limit, k);
      NestedLess(slots[0].Header(), slots[0].Frames(), held, limit, k);
    } else {
      SpreadLess(slots, held, k, s);
    }
  }

  lemma NestedLess(top: Frame, frames: seq<Frame>, held: seq<Hold>, limit: nat, k: nat)
    requires Nested(top, frames, held, limit) && |held| - top.usage <= k < |held| && (top.usage > 1 || frames == [])
    ensures Nested(top.(usage := top.usage - 1), frames, Without(held, k), limit)
  {
    var held', n := Without(held, k), top.usage - 1;
    assert held'[..|held'| - n] == held[..|held| - top.usage];
    forall j | |held'| - n <= j < |held'| ensures Matches(held'[j], 0, top.sector, top.writable) {
      assert held'[j] == if j < k then held[j] else held[j + 1];
    }
  }

  lemma SpreadLess(slots: seq<Slot>, held: seq<Hold>, k: nat, s: Slot)
    requires Spread(slots, held) && k < |held| && held[k].bp < |slots| && slots[held[k].bp].usage > 0
    requires s == slots[held[k].bp].(usage := slots[held[k].bp].usage - 1)
    ensures Spread(slots[held[k].bp := s], Without(held, k))
  {
    var slots', held' := slots[held[k].bp := s], Without(held, k);
    forall i | 0 <= i < |slots'| ensures slots'[i].usage == CountHolds(held', i) {
      CountWithout(held, k, i);
      assert slots[i].usage == CountHolds(held, i);
    }
    forall j | 0 <= j < |held'|
      ensures var h := held'[j]; h.bp < |slots'| && slots'[h.bp].valid && Matches(h, h.bp, slots'[h.bp].sector, slots'[h.bp].writable)
    {
      assert held'[j] == if j < k then held[j] else held[j + 1];
    }
  }

  /** Marking a slot dirty, or reusing one nobody holds, does not touch the holds. */
  lemma HoldsKept(slots: seq<Slot>, held: seq<Hold>, limit: nat, bp: nat, s: Slot)
    requires HoldsFit(slots, held, limit) && bp < |slots|
    requires s.valid && s.usage == slots[bp].usage && s.itptr == slots[bp].itptr && s.stack == slots[bp].stack
    requires slots[bp].usage == 0 || (s.sector == slots[bp].sector && (slots[bp].writable ==> s.writable))
    ensures HoldsFit(slots[bp := s], held, limit)
  {
    if |slots| == 1 {
      forall k | |held| - s.usage <= k < |held| ensures Matches(held[k], 0, s.sector, s.writable) {
        assert Matches(held[k], 0, slots[0].sector, slots[0].writable);
      }
    } else {
      assert slots[bp].usage == CountHolds(held, bp);
    }
  }

  /** Saving the header of a buffer in use and handing the buffer out for another sector. */
  lemma HoldOverallocated(top: Frame, frames: seq<Frame>, held: seq<Hold>, limit: nat, s: Frame)
    requires Nested(top, frames, held, limit) && 0 < top.usage <= 0xFF && top.sector < limit
    requires s.valid && s.usage == 1 && s.sector != top.sector
    ensures Nested(s, frames + [top], held + [Hold(0, s.sector, s.writable)], limit)
  {
    var frames', held' := frames + [top], held + [Hold(0, s.sector, s.writable)];
    assert frames'[..|frames'| - 1] == frames;
    assert held'[..|held'| - 1] == held;
  }

  // ---- the cache invariant and what keeps it ----

  /** The whole invariant of a cache standing for the flat map `view` while clients hold `held`. */
  ghost predicate CacheOk(numit: nat, slots: seq<Slot>, dev: seq<Sector>, view: seq<Sector>, held: seq<Hold>) {
    && 0 < |slots| && numit <= 0xFF
    && (forall i :: 0 <= i < |slots| ==> slots[i].Shaped(numit))
    && Coherent(slots, dev, view)
    && HoldsFit(slots, held, |dev|)
  }

  /** A hold is in place: its slot is valid, carries its sector and holds the current bytes. */
  ghost predicate InPlace(slots: seq<Slot>, view: seq<Sector>, h: Hold) {
    && h.bp < |slots| && h.address < |view|
    && slots[h.bp].valid && slots[h.bp].sector == h.address
    && slots[h.bp].mem == view[h.address]
    && slots[h.bp].usage > 0
    && (h.rw ==> slots[h.bp].writable)
  }

  /** Every hold that clients can use is in place. */
  ghost predicate Shown(slots: seq<Slot>, view: seq<Sector>, held: seq<Hold>) {
    forall k :: 0 <= k < |held| && Reachable(|slots|, held, k) ==> InPlace(slots, view, held[k])
  }

  lemma HoldInPlace(numit: nat, slots: seq<Slot>, dev: seq<Sector>, view: seq<Sector>, held: seq<Hold>, k: nat)
    requires CacheOk(numit, slots, dev, view, held) && Reachable(|slots|, held, k)
    ensures InPlace(slots, view, held[k])
    ensures k < |held| && (|slots| == 1 ==> |held| - slots[0].usage <= k)
  {
    var h := held[k];
    if |slots| == 1 {
      ReachableCounted(slots[0].Header(), slots[0].Frames(), held, |dev|, k);
      assert Matches(h, 0, slots[0].sector, slots[0].writable);
    } else {
      assert slots[h.bp].usage == CountHolds(held, h.bp);
    }
    assert SlotAgrees(slots[h.bp], dev, view);
  }

  lemma AllInPlace(numit: nat, slots: seq<Slot>, dev: seq<Sector>, view: seq<Sector>, held: seq<Hold>)
    requires CacheOk(numit, slots, dev, view, held)
    ensures Shown(slots, view, held)
  {
    forall k | 0 <= k < |held| && Reachable(|slots|, held, k) ensures InPlace(slots, view, held[k]) {
      HoldInPlace(numit, slots, dev, view, held, k);
    }
  }

  /** The newest hold is one of them. */
  lemma NewestInPlace(numit: nat, slots: seq<Slot>, dev: seq<Sector>, view: seq<Sector>, held: seq<Hold>)
    requires CacheOk(numit, slots, dev, view, held) && held != []
    ensures Reachable(|slots|, held, |held| - 1) && InPlace(slots, view, held[|held| - 1])
    ensures Without(held, |held| - 1) == held[..|held| - 1]
  {
    HoldInPlace(numit, slots, dev, view, held, |held| - 1);
  }

  lemma UsageBelow(numit: nat, slots: seq<Slot>, dev: seq<Sector>, view: seq<Sector>, held: seq<Hold>)
    requires CacheOk(numit, slots, dev, view, held)
    ensures forall i :: 0 <= i < |slots| ==> slots[i].usage <= |held|
  {
    forall i | 0 <= i < |slots| ensures slots[i].usage <= |held| {
      if |slots| > 1 { assert slots[i].usage == CountHolds(held, i); }
    }
  }

  lemma CacheFacts(numit: nat, slots: seq<Slot>, dev: seq<Sector>, view: seq<Sector>, held: seq<Hold>)
    requires CacheOk(numit, slots, dev, view, held)
    ensures 0 < |slots| && numit <= 0xFF && |dev| == |view|
    ensures forall i :: 0 <= i < |slots| ==> slots[i].reference <= 0xFF && slots[i].itptr <= numit && |slots[i].stack| == numit + 1
    ensures forall i :: 0 <= i < |slots| && !slots[i].valid ==> slots[i].usage == 0
    ensures forall i :: 0 <= i < |slots| && slots[i].itptr > 0 ==> |slots| == 1
  {
    assert forall i :: 0 <= i < |slots| ==> slots[i].Shaped(numit);
  }

  /** How many buffers clients may hold at once without ever being refused. */
  ghost function Capacity(numbuf: nat, numit: nat): nat {
    if numbuf == 1 then numit + 1 else numbuf
  }

  /** Within capacity the next request is neither refused nor forced to reuse a buffer while others exist. */
  lemma CapacitySuffices(numit: nat, slots: seq<Slot>, dev: seq<Sector>, view: seq<Sector>, held: seq<Hold>)
    requires CacheOk(numit, slots, dev, view, held) && |held| < Capacity(|slots|, numit)
    ensures |slots| > 1 ==> exists i :: 0 <= i < |slots| && slots[i].usage == 0
    ensures |slots| == 1 ==> slots[0].usage == 0 || slots[0].itptr < numit
  {
    if |slots| == 1 {
      FramesFitHolds(slots[0].Header(), slots[0].Frames(), held, |dev|);
    } else {
      UnusedSlotExists(slots, held);
    }
  }

  lemma FlushOk(numit: nat, slots: seq<Slot>, dev: seq<Sector>, view: seq<Sector>, held: seq<Hold>, bp: nat)
    requires CacheOk(numit, slots, dev, view, held) && bp < |slots| && slots[bp].valid
    ensures slots[bp].sector < |dev|
    ensures CacheOk(numit, slots, dev[slots[bp].sector := slots[bp].mem], view, held)
  {
    assert SlotAgrees(slots[bp], dev, view);
    FlushKeepsCoherent(slots, dev, view, bp);
  }

  lemma HitOk(numit: nat, slots: seq<Slot>, dev: seq<Sector>, view: seq<Sector>, held: seq<Hold>, bp: nat, mark: bool, exempt: bool)
    requires CacheOk(numit, slots, dev, view, held) && bp < |slots| && slots[bp].valid && slots[bp].usage < 0xFF
    ensures var s := slots[bp].Hand(mark, exempt);
            && s.sector < |view| && s.mem == view[s.sector]
            && CacheOk(numit, slots[bp := s], dev, view, held + [Hold(bp, s.sector, s.writable)])
  {
    var s := slots[bp].Hand(mark, exempt);
    MarkKeepsCoherent(slots, dev, view, bp, s);
    HoldOneMore(slots, held, |dev|, bp, s);
    assert SlotAgrees(slots[bp], dev, view);
  }

  /** The device holds everything slot `s` does. */
  ghost predicate Settled(s: Slot, dev: seq<Sector>) {
    s.valid ==> s.sector < |dev| && dev[s.sector] == s.mem
  }

  lemma MissOk(numit: nat, slots: seq<Slot>, dev: seq<Sector>, view: seq<Sector>, held: seq<Hold>,
               bp: nat, address: nat, mark: bool, exempt: bool)
    requires CacheOk(numit, slots, dev, view, held) && bp < |slots| && slots[bp].usage == 0 && Settled(slots[bp], dev)
    requires address < |dev| && !Cached(slots, address)
    ensures var s := slots[bp].Reset().Load(address, dev[address]).Hand(mark, exempt);
            && s.mem == view[address]
            && CacheOk(numit, slots[bp := s], dev, view, held + [Hold(bp, address, s.writable)])
  {
    var s := slots[bp].Reset().Load(address, dev[address]).Hand(mark, exempt);
    LoadKeepsCoherent(slots, dev, view, bp, s);
    HoldOneMore(slots, held, |dev|, bp, s);
  }

  lemma OverallocateOk(numit: nat, slots: seq<Slot>, dev: seq<Sector>, view: seq<Sector>, held: seq<Hold>,
                       address: nat, mark: bool, exempt: bool)
    requires CacheOk(numit, slots, dev, view, held) && |slots| == 1 && slots[0].usage > 0 && slots[0].itptr < numit
    requires Settled(slots[0], dev) && address < |dev| && !Cached(slots, address)
    ensures var s := slots[0].Push().Reset().Load(address, dev[address]).Hand(mark, exempt);
            && s.mem == view[address]
            && CacheOk(numit, slots[0 := s], dev, view, held + [Hold(0, address, s.writable)])
  {
    var s := slots[0].Push().Reset().Load(address, dev[address]).Hand(mark, exempt);
    LoadKeepsCoherent(slots, dev, view, 0, s);
    assert slots[0].Shaped(numit);
    assert s.Frames() == slots[0].Frames() + [slots[0].Header()];
    HoldOverallocated(slots[0].Header(), slots[0].Frames(), held, |dev|, s.Header());
    assert SlotAgrees(slots[0 := s][0], dev, view);
  }

  lemma ReleaseOk(numit: nat, slots: seq<Slot>, dev: seq<Sector>, view: seq<Sector>, held: seq<Hold>, k: nat)
    requires CacheOk(numit, slots, dev, view, held) && Reachable(|slots|, held, k)
    requires var bp := held[k].bp; bp < |slots| && slots[bp].usage > 0 && (slots[bp].usage > 1 || slots[bp].itptr == 0)
    ensures var bp := held[k].bp;
            CacheOk(numit, slots[bp := slots[bp].(usage := slots[bp].usage - 1)], dev, view, Without(held, k))
  {
    var bp := held[k].bp;
    var s := slots[bp].(usage := slots[bp].usage - 1);
    assert slots[bp].Shaped(numit);
    MarkKeepsCoherent(slots, dev, view, bp, s);
    HoldOneLess(slots, held, |dev|, k, s);
    hide HoldsFit, Coherent;
  }

  lemma SlicePrefix<T>(s: seq<T>, a: nat, b: nat, n: nat)
    requires a <= b <= |s| && n <= b - a
    ensures s[a..b][..n] == s[a..a + n]
  {
  }

  /** The header saved last, and the holds that go with it. */
  lemma SavedHeader(numit: nat, s: Slot, held: seq<Hold>, limit: nat)
    requires s.Shaped(numit) && s.itptr > 0 && s.usage == 1 && Nested(s.Header(), s.Frames(), held, limit)
    ensures var f := s.stack[s.itptr];
            && f.sector < limit && f.valid && f.usage <= 0xFF && held != []
            && s.Pop().Frames() == s.Frames()[..s.itptr - 1]
            && Nested(f, s.Pop().Frames(), held[..|held| - 1], limit)
  {
    var frames := s.Frames();
    assert s.stack[s.itptr] == frames[|frames| - 1];
    SlicePrefix(s.stack, 1, s.itptr + 1, s.itptr - 1);
  }

  lemma PopOk(numit: nat, slots: seq<Slot>, dev: seq<Sector>, view: seq<Sector>, held: seq<Hold>)
    requires CacheOk(numit, slots, dev, view, held) && |slots| == 1 && slots[0].usage == 1 && slots[0].itptr > 0
    requires Settled(slots[0], dev)
    ensures var f := slots[0].stack[slots[0].itptr];
            && f.sector < |dev| && f.valid
            && CacheOk(numit, slots[0 := slots[0].Pop().Load(f.sector, dev[f.sector])], dev, view, held[..|held| - 1])
  {
    SavedHeader(numit, slots[0], held, |dev|);
    var f := slots[0].stack[slots[0].itptr];
    var s := slots[0].Pop().Load(f.sector, dev[f.sector]);
    assert s.Frames() == slots[0].Pop().Frames() && s.Header() == f && s.Shaped(numit);
    hide Nested;
    LoadKeepsCoherent(slots, dev, view, 0, s);
    hide Coherent, SlotAgrees;
  }

  /** A valid slot given new bytes and marked writable. */
  lemma StoreOk(numit: nat, slots: seq<Slot>, dev: seq<Sector>, view: seq<Sector>, held: seq<Hold>, bp: nat, bytes: Sector)
    requires CacheOk(numit, slots, dev, view, held) && bp < |slots| && slots[bp].valid
    ensures slots[bp].sector < |view|
    ensures CacheOk(numit, slots[bp := slots[bp].(mem := bytes, writable := true)], dev,
                    view[slots[bp].sector := bytes], held)
  {
    var s := slots[bp].(mem := bytes, writable := true);
    StoreKeepsCoherent(slots, dev, view, bp, s);
    HoldsKept(slots, held, |dev|, bp, s);
  }

  /** An empty slot loaded with an uncached sector. */
  lemma PrefetchOk(numit: nat, slots: seq<Slot>, dev: seq<Sector>, view: seq<Sector>, held: seq<Hold>, bp: nat, address: nat)
    requires CacheOk(numit, slots, dev, view, held) && bp < |slots| && !slots[bp].valid
    requires address < |dev| && !Cached(slots, address)
    ensures CacheOk(numit, slots[bp := slots[bp].Load(address, dev[address])], dev, view, held)
    ensures dev[address] == view[address]
  {
    var s := slots[bp].Load(address, dev[address]);
    LoadKeepsCoherent(slots, dev, view, bp, s);
    HoldsKept(slots, held, |dev|, bp, s);
  }

  /** An empty slot filled with new bytes for an uncached sector. */
  lemma FillOk(numit: nat, slots: seq<Slot>, dev: seq<Sector>, view: seq<Sector>, held: seq<Hold>,
               bp: nat, address: nat, bytes: Sector)
    requires CacheOk(numit, slots, dev, view, held) && bp < |slots| && !slots[bp].valid
    requires address < |dev| && !Cached(slots, address)
    ensures CacheOk(numit, slots[bp := slots[bp].Reset().(sector := address, writable := true, valid := true, mem := bytes)],
                    dev, view[address := bytes], held)
  {
    var s := slots[bp].Reset().(sector := address, writable := true, valid := true, mem := bytes);
    FillKeepsCoherent(slots, dev, view, bp, s);
    HoldsKept(slots, held, |dev|, bp, s);
  }

  lemma WriteThroughOk(numit: nat, slots: seq<Slot>, dev: seq<Sector>, view: seq<Sector>, held: seq<Hold>,
                       address: nat, bytes: Sector)
    requires CacheOk(numit, slots, dev, view, held) && address < |dev| && !Cached(slots, address)
    ensures CacheOk(numit, slots, dev[address := bytes], view[address := bytes], held)
  {
    DirectWriteKeepsCoherent(slots, dev, view, address, bytes);
  }

  // ---- victim selection ----

  /** The score findOverallocableSpot ranks slots by, without wrap-around. */
  function Score(writable: bool, itptr: nat, numit: nat, reference: nat): (p: nat)
    requires itptr < numit
  {
    (if writable then 0x7F else 0) + Div(itptr * 0x4D, numit) + reference * 0x33 / 0xFF
  }

  /** The score of an overallocable slot fits in eight bits below the sentinel 0xFF. */
  lemma ScoreFits(writable: bool, itptr: nat, numit: nat, reference: nat)
    requires itptr < numit && reference <= 0xFF
    ensures Div(itptr * 0x4D, numit) <= 0x4C
    ensures Score(writable, itptr, numit, reference) < 0xFF
  {
    assert itptr * 0x4D < numit * 0x4D;
    DivBelow(itptr * 0x4D, numit, 0x4D);
    hide Div;
    assert reference * 0x33 / 0xFF <= 0x33;
  }

  /** No clean buffer has a worse score than a dirty one, however deep its stack and however often it was requested. */
  lemma CleanFirst(numit: nat, itptr: nat, reference: nat, itptr': nat, reference': nat)
    requires itptr < numit && itptr' < numit && reference <= 0xFF && reference' <= 0xFF
    ensures Score(false, itptr, numit, reference) <= 127 <= Score(true, itptr', numit, reference')
  {
    ScoreFits(false, itptr, numit, reference);
  }

  /** Accumulated in eight bits from sixteen-bit products, the score is the same. */
  lemma ScoreInEightBits(writable: bool, itptr: nat, numit: nat, reference: nat)
    requires itptr < numit <= 0xFF && reference <= 0xFF
    ensures var p := if writable then 0x7F else 0;
            var q := (p + Div(itptr * 0x4D % UINT16, numit)) % 256;
            (q + reference * 0x33 % UINT16 / 0xFF) % 256 == Score(writable, itptr, numit, reference)
  {
    hide Div;
    ScoreFits(writable, itptr, numit, reference);
    SixteenBits(itptr * 0x4D);
    SixteenBits(reference * 0x33);
    Accumulated(if writable then 0x7F else 0, Div(itptr * 0x4D, numit), reference * 0x33 / 0xFF);
  }

  lemma SixteenBits(x: nat)
    requires x < UINT16
    ensures x % UINT16 == x
  {
  }

  lemma Accumulated(p: nat, a: nat, b: nat)
    requires p + a + b < 256
    ensures ((p + a) % 256 + b) % 256 == p + a + b
  {
  }
}
