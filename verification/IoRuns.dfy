/** Whole runs of cache requests against a flat sector map. */
module IoRuns {
  import opened Bytes
  import opened Slots
  import opened Rooms
  import opened IoMan

  /** A request; stores and releases name one of the buffers held by its number, oldest first. */
  datatype Request =
    | Get(address: nat, mode: nat)
    | Store(hold: nat, off: nat, bytes: seq<Byte>)
    | Release(hold: nat)
    | ReadDirect(address: nat)
    | WriteDirect(address: nat, sector: Sector)

  /** What clients know: the sectors, and for each buffer they hold its sector and their right to write. */
  datatype Flat = Flat(sectors: seq<Sector>, asked: seq<nat>, rights: seq<bool>)

  /** One request on the flat map, and the bytes the client then sees. */
  function FlatStep(m: Flat, r: Request): (Flat, seq<Byte>) {
    match r
    case Get(a, mode) =>
      if a < |m.sectors| then
        (m.(asked := m.asked + [a], rights := m.rights + [mode == IOM_MODE_READWRITE]), m.sectors[a])
      else (m, [])
    case Store(k, off, bytes) =>
      if k < |m.asked| && m.asked[k] < |m.sectors| && off + |bytes| <= SECTOR_SIZE then
        var s := Splice(m.sectors[m.asked[k]], off, bytes);
        (m.(sectors := m.sectors[m.asked[k] := s]), s)
      else (m, [])
    case Release(k) =>
      if k < |m.asked| == |m.rights| then (m.(asked := Without(m.asked, k), rights := Without(m.rights, k)), []) else (m, [])
    case ReadDirect(a) => if a < |m.sectors| then (m, m.sectors[a]) else (m, [])
    case WriteDirect(a, bytes) => if a < |m.sectors| then (m.(sectors := m.sectors[a := bytes]), []) else (m, [])
  }

  /** With several buffers every buffer held can be used, with one buffer those for the sector asked for last. */
  ghost predicate Usable(numbuf: nat, asked: seq<nat>, k: nat) {
    k < |asked| && (numbuf > 1 || forall j :: k <= j < |asked| ==> asked[j] == asked[k])
  }

  /** What clients may ask of a cache with `numbuf` buffers and `numit` stack slots: addresses on the device, room for the
      request, use counts of eight bits, stores only to buffers requested for writing. */
  ghost predicate Proper(m: Flat, r: Request, numbuf: nat, numit: nat) {
    match r
    case Get(a, mode) =>
      a < |m.sectors| && HasRoom(numbuf, numit, m.asked, a) && UseCount(numbuf, m.asked, a) < 0xFF
    case Store(k, off, bytes) => Usable(numbuf, m.asked, k) && k < |m.rights| && m.rights[k] && off + |bytes| <= SECTOR_SIZE
    case Release(k) => Usable(numbuf, m.asked, k)
    case ReadDirect(a) => a < |m.sectors|
    case WriteDirect(a, bytes) => a < |m.sectors|
  }

  function FlatRun(m: Flat, rs: seq<Request>): (r: (Flat, seq<seq<Byte>>)) {
    if rs == [] then (m, [])
    else
      var (m1, outs) := FlatRun(m, rs[..|rs| - 1]);
      var (m2, out) := FlatStep(m1, rs[|rs| - 1]);
      (m2, outs + [out])
  }

  ghost predicate AllProper(m: Flat, rs: seq<Request>, numbuf: nat, numit: nat) {
    forall k :: 0 <= k < |rs| ==> Proper(FlatRun(m, rs[..k]).0, rs[k], numbuf, numit)
  }

  /** A hold that gives the client what it knows: sector, buffer and at least its right to write. */
  ghost predicate Fits(h: Hold, a: nat, rw: bool, bp: nat) {
    h.address == a && h.bp == bp && (rw ==> h.rw)
  }

  /** The cache stands for the flat map; `ptrs` are the buffers the clients hold. */
  ghost predicate Represents(io: IOManager, m: Flat, ptrs: seq<nat>)
    reads io
  {
    && io.Valid() && io.view == m.sectors && HeldAs(io.held, m.asked, m.rights, ptrs)
  }

  ghost predicate HeldAs(held: seq<Hold>, asked: seq<nat>, rights: seq<bool>, ptrs: seq<nat>) {
    && |held| == |asked| == |rights| == |ptrs|
    && forall i :: 0 <= i < |held| ==> Fits(held[i], asked[i], rights[i], ptrs[i])
  }

  lemma HeldMore(held: seq<Hold>, asked: seq<nat>, rights: seq<bool>, ptrs: seq<nat>, h: Hold, rw: bool)
    requires HeldAs(held, asked, rights, ptrs) && (rw ==> h.rw)
    ensures HeldAs(held + [h], asked + [h.address], rights + [rw], ptrs + [h.bp])
  {
  }

  lemma HeldLess(held: seq<Hold>, asked: seq<nat>, rights: seq<bool>, ptrs: seq<nat>, k: nat)
    requires HeldAs(held, asked, rights, ptrs) && k < |held|
    ensures HeldAs(Without(held, k), Without(asked, k), Without(rights, k), Without(ptrs, k))
  {
    forall i | 0 <= i < |held| - 1
      ensures Fits(Without(held, k)[i], Without(asked, k)[i], Without(rights, k)[i], Without(ptrs, k)[i])
    {
      var j := if i < k then i else i + 1;
      assert Fits(held[j], asked[j], rights[j], ptrs[j]);
    }
  }

  /** What the clients know of their buffers is what the cache knows. */
  lemma KnownAsked(held: seq<Hold>, asked: seq<nat>, rights: seq<bool>, ptrs: seq<nat>)
    requires HeldAs(held, asked, rights, ptrs)
    ensures Asked(held) == asked
  {
    assert forall i :: 0 <= i < |held| ==> Fits(held[i], asked[i], rights[i], ptrs[i]);
  }

  lemma KnownHold(numbuf: nat, held: seq<Hold>, asked: seq<nat>, rights: seq<bool>, ptrs: seq<nat>, k: nat)
    requires HeldAs(held, asked, rights, ptrs) && Usable(numbuf, asked, k)
    ensures k < |asked| && Reachable(numbuf, held, k) && held[k].address == asked[k] && held[k].bp == ptrs[k] && (rights[k] ==> held[k].rw)
  {
    assert forall i :: 0 <= i < |held| ==> Fits(held[i], asked[i], rights[i], ptrs[i]);
  }

  /** A request with room for it is one the cache can serve. */
  lemma CanServe(io: IOManager, a: nat)
    requires io.Valid() && HasRoom(|io.slots|, io.numit, Asked(io.held), a) && UseCount(|io.slots|, Asked(io.held), a) < 0xFF
    ensures io.UsedLess(a) && 0 < |io.slots| && |io.dev| == |io.view|
    ensures io.Available(a) || (|io.slots| == 1 && io.slots[0].itptr < io.numit)
  {
    RoomIff(io.numit, io.slots, io.dev, io.view, io.held, a);
    CacheFacts(io.numit, io.slots, io.dev, io.view, io.held);
    hide CacheOk, HasRoom, UseCount;
    forall i | 0 <= i < |io.slots| && io.slots[i].valid && io.slots[i].sector == a ensures io.slots[i].usage < 0xFF {
      UsageIs(io.numit, io.slots, io.dev, io.view, io.held, i);
    }
  }

  method DoGet(io: IOManager, a: nat, mode: nat, ghost m: Flat, ptrs: seq<nat>) returns (out: seq<Byte>, ptrs': seq<nat>)
    requires Represents(io, m, ptrs) && Proper(m, Get(a, mode), |io.slots|, io.numit)
    modifies io
    ensures Represents(io, FlatStep(m, Get(a, mode)).0, ptrs') && out == m.sectors[a] && |io.slots| == |old(io.slots)|
  {
    hide CacheOk, Handed, Picked, WrittenBack, HasRoom, UseCount, HeldAs, Cached;
    KnownAsked(io.held, m.asked, m.rights, ptrs);
    CanServe(io, a);
    ghost var held := io.held;
    var bp := io.GetSector(a, mode);
    HeldMore(held, m.asked, m.rights, ptrs, io.held[|held|], mode == IOM_MODE_READWRITE);
    out, ptrs' := io.Buffer(bp), ptrs + [bp];
  }

  method DoStore(io: IOManager, k: nat, off: nat, bytes: seq<Byte>, ghost m: Flat, ptrs: seq<nat>) returns (out: seq<Byte>)
    requires Represents(io, m, ptrs) && Proper(m, Store(k, off, bytes), |io.slots|, io.numit) && k < |ptrs|
    modifies io
    ensures Represents(io, FlatStep(m, Store(k, off, bytes)).0, ptrs) && out == FlatStep(m, Store(k, off, bytes)).1
    ensures |io.slots| == |old(io.slots)|
  {
    hide CacheOk, Splice, HeldAs, Usable, Shown, Reachable;
    KnownHold(|io.slots|, io.held, m.asked, m.rights, ptrs, k);
    HoldInPlace(io.numit, io.slots, io.dev, io.view, io.held, k);
    var bp := ptrs[k];
    io.Store(bp, off, bytes, k);
    out := io.Buffer(bp);
  }

  method DoRelease(io: IOManager, k: nat, ghost m: Flat, ptrs: seq<nat>)
    requires Represents(io, m, ptrs) && Usable(|io.slots|, m.asked, k) && k < |ptrs|
    modifies io
    ensures Represents(io, FlatStep(m, Release(k)).0, Without(ptrs, k)) && |io.slots| == |old(io.slots)|
  {
    hide CacheOk, Released, Shown, WrittenBack, Reachable;
    KnownHold(|io.slots|, io.held, m.asked, m.rights, ptrs, k);
    HeldLess(io.held, m.asked, m.rights, ptrs, k);
    io.ReleaseSector(ptrs[k], k);
  }

  method DoReadDirect(io: IOManager, a: nat, ghost m: Flat, ptrs: seq<nat>) returns (out: seq<Byte>)
    requires Represents(io, m, ptrs) && a < |m.sectors|
    modifies io
    ensures Represents(io, m, ptrs) && out == m.sectors[a] && |io.slots| == |old(io.slots)|
  {
    CacheFacts(io.numit, io.slots, io.dev, io.view, io.held);
    hide CacheOk, ReadAhead, Shown;
    out := io.DirectSectorRead(a);
  }

  method DoWriteDirect(io: IOManager, a: nat, bytes: Sector, ghost m: Flat, ptrs: seq<nat>)
    requires Represents(io, m, ptrs) && a < |m.sectors|
    modifies io
    ensures Represents(io, FlatStep(m, WriteDirect(a, bytes)).0, ptrs) && |io.slots| == |old(io.slots)|
  {
    CacheFacts(io.numit, io.slots, io.dev, io.view, io.held);
    hide CacheOk, WrittenDirectly, Shown;
    io.DirectSectorWrite(a, bytes);
  }

  /** One request through the cache: the client sees what it would see on the flat map. */
  method Serve(io: IOManager, r: Request, ghost m: Flat, ptrs: seq<nat>) returns (out: seq<Byte>, ptrs': seq<nat>)
    requires Represents(io, m, ptrs) && Proper(m, r, |io.slots|, io.numit)
    modifies io
    ensures Represents(io, FlatStep(m, r).0, ptrs') && out == FlatStep(m, r).1 && |io.slots| == |old(io.slots)|
  {
    hide CacheOk, Splice, HasRoom, UseCount;
    out, ptrs' := [], ptrs;
    match r
    case Get(a, mode) =>
      out, ptrs' := DoGet(io, a, mode, m, ptrs);
    case Store(k, off, bytes) =>
      out := DoStore(io, k, off, bytes, m, ptrs);
    case Release(k) =>
      DoRelease(io, k, m, ptrs);
      ptrs' := Without(ptrs, k);
    case ReadDirect(a) =>
      out := DoReadDirect(io, a, m, ptrs);
    case WriteDirect(a, bytes) =>
      DoWriteDirect(io, a, bytes, m, ptrs);
  }

  /** Every run of requests in which each finds room shows the clients what the flat map would show them. */
  method Run(io: IOManager, rs: seq<Request>, ghost m: Flat, ptrs: seq<nat>) returns (outs: seq<seq<Byte>>, ptrs': seq<nat>)
    requires Represents(io, m, ptrs) && AllProper(m, rs, |io.slots|, io.numit)
    modifies io
    ensures Represents(io, FlatRun(m, rs).0, ptrs') && outs == FlatRun(m, rs).1 && |io.slots| == |old(io.slots)|
  {
    hide CacheOk, FlatStep, Proper, Represents;
    outs, ptrs' := [], ptrs;
    for k := 0 to |rs|
      invariant |io.slots| == |old(io.slots)|
      invariant Represents(io, FlatRun(m, rs[..k]).0, ptrs') && outs == FlatRun(m, rs[..k]).1
    {
      assert Proper(FlatRun(m, rs[..k]).0, rs[k], |io.slots|, io.numit);
      var out;
      out, ptrs' := Serve(io, rs[k], FlatRun(m, rs[..k]).0, ptrs');
      outs := outs + [out];
      assert rs[..k + 1][..k] == rs[..k];
    }
    assert rs[..|rs|] == rs;
  }

  // ---- which sector gives way ----

  /** How many requests are counted: those without the exempt bit 4. */
  function Counting(modes: seq<nat>): (n: nat)
    ensures n <= |modes|
  {
    if modes == [] then 0 else Counting(modes[..|modes| - 1]) + if modes[|modes| - 1] / 4 % 2 == 0 then 1 else 0
  }

  function Upto255(n: nat): nat {
    if n < 255 then n else 255
  }

  /** One of the requests asks for writing: bit 2. */
  ghost predicate ForWriting(modes: seq<nat>) {
    exists k :: 0 <= k < |modes| && modes[k] / 2 % 2 == 1
  }

  /** `s'` is `s` after those requests. */
  ghost predicate Recounted(s: Slot, s': Slot, modes: seq<nat>) {
    s' == s.(reference := Upto255(s.reference + Counting(modes)), writable := s.writable || ForWriting(modes))
  }

  lemma OneMore(s0: Slot, s1: Slot, s2: Slot, modes: seq<nat>, mode: nat)
    requires Recounted(s0, s1, modes) && Recounted(s1, s2, [mode])
    ensures Recounted(s0, s2, modes + [mode])
  {
    var more := modes + [mode];
    assert more[..|modes|] == modes && [mode][..0] == [];
    assert ForWriting(more) <==> ForWriting(modes) || ForWriting([mode]) by {
      if ForWriting(modes) {
        var k :| 0 <= k < |modes| && modes[k] / 2 % 2 == 1;
        assert more[k] == modes[k];
      }
      if ForWriting([mode]) { assert more[|modes|] == mode; }
    }
  }

  /** What is left of a request that is given back at once: in a buffer with the sector, in one not in use. */
  lemma HitAndReleased(s: Slot, view: seq<Sector>, address: nat, bytes: Sector, mode: nat)
    requires s.valid && s.usage < 0xFF && s.reference <= 255 && (s.usage == 0 ==> s.itptr == 0)
    ensures var h := Handed(s, true, true, address, bytes, mode);
            var r := Released(h, view);
            && h.usage == s.usage + 1 && h.itptr == s.itptr
            && r.valid && r.sector == s.sector && r.usage == s.usage && Recounted(s, r, [mode])
  {
    assert [mode][..0] == [] && [mode][0] == mode;
  }

  lemma MissAndReleased(s: Slot, view: seq<Sector>, address: nat, bytes: Sector, mode: nat)
    requires s.itptr == 0
    ensures var h := Handed(s, false, true, address, bytes, mode);
            && h.itptr == 0
            && Released(h, view) == Slot(address, true, mode == 2, 0, if mode / 4 % 2 == 0 then 1 else 0, 0, s.stack, bytes)
  {
  }

  /** A request for a cached sector, given back at once. */
  method Once(io: IOManager, address: nat, mode: nat, ghost bp: nat)
    requires io.Valid() && bp < |io.slots| && io.slots[bp].valid && io.slots[bp].sector == address < |io.dev|
    requires io.slots[bp].usage < 0xFF
    modifies io
    ensures io.Valid() && io.view == old(io.view) && io.held == old(io.held) && io.dev == old(io.dev)
    ensures |io.slots| == |old(io.slots)| && io.slots == old(io.slots)[bp := io.slots[bp]]
    ensures io.slots[bp].valid && io.slots[bp].sector == address && io.slots[bp].usage == old(io.slots)[bp].usage
    ensures Recounted(old(io.slots)[bp], io.slots[bp], [mode])
  {
    OneSlot(io.numit, io.slots, io.dev, io.view, io.held, address, bp);
    CacheFacts(io.numit, io.slots, io.dev, io.view, io.held);
    UnusedUnsaved(io.numit, io.slots, io.dev, io.view, io.held);
    ghost var s, held := io.slots[bp], io.held;
    HitAndReleased(s, io.view, address, io.view[address], mode);
    hide CacheOk, Shown, Reachable, WrittenBack, Released, Handed, Recounted;
    var b := io.GetSector(address, mode);
    NewestReachable(|io.slots|, io.held);
    io.ReleaseSector(b, |io.held| - 1);
    assert io.held == held;
  }

  lemma NewestReachable(numbuf: nat, held: seq<Hold>)
    requires held != []
    ensures Reachable(numbuf, held, |held| - 1) && Without(held, |held| - 1) == held[..|held| - 1]
  {
  }

  /** A sector has one buffer. */
  lemma OneSlot(numit: nat, slots: seq<Slot>, dev: seq<Sector>, view: seq<Sector>, held: seq<Hold>, address: nat, bp: nat)
    requires CacheOk(numit, slots, dev, view, held) && bp < |slots| && slots[bp].valid && slots[bp].sector == address
    ensures Cached(slots, address)
    ensures forall i :: 0 <= i < |slots| && slots[i].valid && slots[i].sector == address ==> i == bp
  {
  }

  /** A buffer that is not in use has no saved headers. */
  lemma UnusedUnsaved(numit: nat, slots: seq<Slot>, dev: seq<Sector>, view: seq<Sector>, held: seq<Hold>)
    requires CacheOk(numit, slots, dev, view, held)
    ensures forall i :: 0 <= i < |slots| && slots[i].usage == 0 ==> slots[i].itptr == 0
  {
    if |slots| == 1 && slots[0].itptr > 0 { assert slots[0].Frames() != []; }
  }

  lemma AtFirst(s: Slot)
    requires s.reference <= 255
    ensures Recounted(s, s, [])
  {
  }

  /** The reference count of a cached sector grows by the number of counted requests, up to 255. */
  method Requested(io: IOManager, address: nat, modes: seq<nat>, ghost bp: nat)
    requires io.Valid() && bp < |io.slots| && io.slots[bp].valid && io.slots[bp].sector == address < |io.dev|
    requires io.slots[bp].usage < 0xFF && io.slots[bp].reference <= 255
    modifies io
    ensures io.Valid() && io.view == old(io.view) && io.held == old(io.held) && io.dev == old(io.dev)
    ensures |io.slots| == |old(io.slots)| && io.slots == old(io.slots)[bp := io.slots[bp]]
    ensures Recounted(old(io.slots)[bp], io.slots[bp], modes)
  {
    hide CacheOk, Recounted;
    AtFirst(io.slots[bp]);
    for k := 0 to |modes|
      invariant io.Valid() && io.view == old(io.view) && io.held == old(io.held) && io.dev == old(io.dev)
      invariant |io.slots| == |old(io.slots)| && io.slots == old(io.slots)[bp := io.slots[bp]]
      invariant io.slots[bp].valid && io.slots[bp].sector == address && io.slots[bp].usage == old(io.slots)[bp].usage
      invariant Recounted(old(io.slots)[bp], io.slots[bp], modes[..k])
    {
      ghost var s := io.slots[bp];
      Once(io, address, modes[k], bp);
      OneMore(old(io.slots)[bp], s, io.slots[bp], modes[..k], modes[k]);
      assert modes[..k + 1] == modes[..k] + [modes[k]];
    }
    assert modes[..|modes|] == modes;
  }

  lemma {:induction false} CountingFirst(modes: seq<nat>)
    requires modes != []
    ensures Counting(modes) == Counting(modes[1..]) + if modes[0] / 4 % 2 == 0 then 1 else 0
    ensures !ForWriting(modes) ==> modes[0] / 2 % 2 == 0 && !ForWriting(modes[1..])
  {
    var n := |modes| - 1;
    if n > 0 {
      CountingFirst(modes[..n]);
      assert modes[..n][1..] == modes[1..][..n - 1];
    } else {
      assert modes[..n] == modes[1..] == [];
    }
    assert forall k :: 0 <= k < n ==> modes[1..][k] == modes[k + 1];
  }

  /** A sector requested for the first time, into an empty buffer, and given back. */
  method First(io: IOManager, address: nat, mode: nat, ghost bp: nat)
    requires io.Valid() && FirstInvalid(io.slots, bp) && io.held == [] && address < |io.dev| && !Cached(io.slots, address)
    modifies io
    ensures io.Valid() && io.view == old(io.view) && io.held == [] && |io.dev| == |old(io.dev)| && |io.slots| == |old(io.slots)|
    ensures address < |io.view|
    ensures io.slots == old(io.slots)[bp := Slot(address, true, mode == 2, 0, if mode / 4 % 2 == 0 then 1 else 0, 0,
                                                 old(io.slots)[bp].stack, io.view[address])]
  {
    CacheFacts(io.numit, io.slots, io.dev, io.view, io.held);
    UnusedUnsaved(io.numit, io.slots, io.dev, io.view, io.held);
    MissAndReleased(io.slots[bp], io.view, address, io.view[address], mode);
    hide CacheOk, Shown, Reachable, WrittenBack, Released, Handed;
    var b := io.GetSector(address, mode);
    assert b == bp;
    NewestReachable(|io.slots|, io.held);
    io.ReleaseSector(b, |io.held| - 1);
  }

  /** A sector requested a number of times. */
  method Loaded(io: IOManager, address: nat, modes: seq<nat>, ghost bp: nat)
    requires io.Valid() && FirstInvalid(io.slots, bp) && io.held == [] && address < |io.dev| && !Cached(io.slots, address)
    requires modes != [] && !ForWriting(modes)
    modifies io
    ensures io.Valid() && io.view == old(io.view) && io.held == [] && |io.dev| == |old(io.dev)| && |io.slots| == |old(io.slots)|
    ensures address < |io.view|
    ensures io.slots == old(io.slots)[bp := Slot(address, true, false, 0, Upto255(Counting(modes)), 0,
                                                 old(io.slots)[bp].stack, io.view[address])]
  {
    CountingFirst(modes);
    hide CacheOk, Counting, ForWriting;
    First(io, address, modes[0], bp);
    Requested(io, address, modes[1..], bp);
  }

  /** Two empty buffers, two sectors requested for reading a number of times each: a third sector takes the place of the one
      with fewer counted requests, and of the second if both have as many or more than 254. */
  method GivesWay(io: IOManager, a: nat, b: nat, c: nat, forA: seq<nat>, forB: seq<nat>) returns (bp: int)
    requires io.Valid() && |io.slots| == 2 && !io.slots[0].valid && !io.slots[1].valid && io.held == []
    requires a < |io.dev| && b < |io.dev| && c < |io.dev| && a != b && b != c && a != c
    requires forA != [] && forB != [] && !ForWriting(forA) && !ForWriting(forB)
    modifies io
    ensures io.Valid() && io.view == old(io.view) && |io.slots| == 2
    ensures bp == if Upto255(Counting(forA)) < Upto255(Counting(forB)) then 0 else 1
    ensures io.Buffer(bp) == io.view[c]
  {
    hide CacheOk, Counting, ForWriting, WrittenBack, Handed;
    Loaded(io, a, forA, 0);
    Loaded(io, b, forB, 1);
    ghost var slots := io.slots;
    assert slots[0].usage == 0 && !Cached(slots, c);
    bp := io.GetSector(c, IOM_MODE_READONLY);
    assert LeastReferenced(slots, bp);
    assert slots[0].reference == Upto255(Counting(forA)) && slots[1].reference == Upto255(Counting(forB));
  }

  // ---- what the flat map promises ----

  /** The last bytes written to sector `a` by any route; the sector's first bytes if there was no write. */
  function LastWritten(m: Flat, rs: seq<Request>, a: nat): seq<Byte>
    requires a < |m.sectors|
  {
    if rs == [] then m.sectors[a]
    else
      var before := FlatRun(m, rs[..|rs| - 1]).0;
      match rs[|rs| - 1]
      case Store(k, off, bytes) =>
        if k < |before.asked| && before.asked[k] == a && off + |bytes| <= SECTOR_SIZE
        then FlatStep(before, rs[|rs| - 1]).1
        else LastWritten(m, rs[..|rs| - 1], a)
      case WriteDirect(b, bytes) => if b == a then bytes else LastWritten(m, rs[..|rs| - 1], a)
      case _ => LastWritten(m, rs[..|rs| - 1], a)
  }

  /** A request or a direct read after any run shows the bytes written last. */
  lemma {:induction false} ReadsLastWritten(m: Flat, rs: seq<Request>, a: nat)
    requires a < |m.sectors|
    ensures var m' := FlatRun(m, rs).0;
            && |m'.sectors| == |m.sectors| && m'.sectors[a] == LastWritten(m, rs, a)
            && FlatStep(m', ReadDirect(a)).1 == LastWritten(m, rs, a)
            && (forall mode :: FlatStep(m', Get(a, mode)).1 == LastWritten(m, rs, a))
  {
    if rs != [] {
      var n := |rs| - 1;
      ReadsLastWritten(m, rs[..n], a);
      LastOf(FlatRun(m, rs[..n]).0, rs[n], a);
      hide FlatStep;
    }
    SeesSector(FlatRun(m, rs).0, a);
    hide FlatStep;
  }

  /** What one request leaves in sector `a`. */
  lemma LastOf(m: Flat, r: Request, a: nat)
    requires a < |m.sectors|
    ensures var (m', out) := FlatStep(m, r);
            && |m'.sectors| == |m.sectors|
            && m'.sectors[a] == match r
                                case Store(k, off, bytes) =>
                                  if k < |m.asked| && m.asked[k] == a && off + |bytes| <= SECTOR_SIZE then out else m.sectors[a]
                                case WriteDirect(b, bytes) => if b == a then bytes else m.sectors[a]
                                case _ => m.sectors[a]
  {
    hide Splice;
  }

  lemma SeesSector(m: Flat, a: nat)
    requires a < |m.sectors|
    ensures FlatStep(m, ReadDirect(a)).1 == m.sectors[a] && forall mode :: FlatStep(m, Get(a, mode)).1 == m.sectors[a]
  {
  }
}
