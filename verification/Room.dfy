/** When a request can be served, in terms of what clients hold: with several buffers the sectors held count, with one
    buffer the runs of holds on one sector. */
module Rooms {
  import opened Bytes
  import opened Slots

  /** The sectors held, oldest request first. */
  function Asked(held: seq<Hold>): (s: seq<nat>)
    ensures |s| == |held|
  {
    seq(|held|, k requires 0 <= k < |held| => held[k].address)
  }

  ghost function Sectors(asked: seq<nat>): set<nat> {
    set k | 0 <= k < |asked| :: asked[k]
  }

  /** The number of runs of consecutive requests for one sector. */
  function RunCount(asked: seq<nat>): nat {
    var n := |asked| - 1;
    if n < 0 then 0 else RunCount(asked[..n]) + if n > 0 && asked[n - 1] == asked[n] then 0 else 1
  }

  /** The length of the last run. */
  function LastRun(asked: seq<nat>): nat {
    var n := |asked| - 1;
    if n < 0 then 0 else if n > 0 && asked[n - 1] == asked[n] then 1 + LastRun(asked[..n]) else 1
  }

  function CountOf(asked: seq<nat>, a: nat): nat {
    var n := |asked| - 1;
    if n < 0 then 0 else CountOf(asked[..n], a) + if asked[n] == a then 1 else 0
  }

  /** How often the buffer with sector `a` is in use. */
  function UseCount(numbuf: nat, asked: seq<nat>, a: nat): nat {
    if numbuf > 1 then CountOf(asked, a) else if asked != [] && asked[|asked| - 1] == a then LastRun(asked) else 0
  }

  /** A request for sector `a` finds a buffer without reusing one in use while there are several, and a stack slot if the
      only buffer must be reused. */
  ghost predicate HasRoom(numbuf: nat, numit: nat, asked: seq<nat>, a: nat) {
    if numbuf > 1 then a in Sectors(asked) || |Sectors(asked)| < numbuf
    else asked == [] || asked[|asked| - 1] == a || RunCount(asked) <= numit
  }

  // ---- one buffer ----

  /** A last run that starts at `b`. */
  lemma {:induction false} RunFrom(asked: seq<nat>, b: nat)
    requires b < |asked| && (forall j :: b <= j < |asked| ==> asked[j] == asked[b]) && (b > 0 ==> asked[b - 1] != asked[b])
    ensures RunCount(asked) == RunCount(asked[..b]) + 1 && LastRun(asked) == |asked| - b
    decreases |asked|
  {
    var n := |asked| - 1;
    if b < n {
      assert asked[..n][..b] == asked[..b];
      RunFrom(asked[..n], b);
    }
  }

  /** The runs are the header in the buffer and the saved ones. */
  lemma {:induction false} RunsAreFrames(top: Frame, frames: seq<Frame>, held: seq<Hold>, limit: nat)
    requires Nested(top, frames, held, limit) && held != []
    ensures RunCount(Asked(held)) == |frames| + 1 && LastRun(Asked(held)) == top.usage && held[|held| - 1].address == top.sector
    decreases |frames|
  {
    var b := |held| - top.usage;
    forall j | b <= j < |held| ensures held[j].address == top.sector {
      assert Matches(held[j], 0, top.sector, top.writable);
    }
    assert Asked(held)[..b] == Asked(held[..b]);
    if frames != [] {
      FramesDiffer(top, frames, held, limit);
      RunsAreFrames(frames[|frames| - 1], frames[..|frames| - 1], held[..b], limit);
    }
    RunFrom(Asked(held), b);
  }

  // ---- several buffers ----

  /** Holds are on the same slot exactly if they are on the same sector. */
  ghost predicate Paired(held: seq<Hold>) {
    forall k, l :: 0 <= k < |held| && 0 <= l < |held| ==> (held[k].address == held[l].address <==> held[k].bp == held[l].bp)
  }

  /** The sectors held and the slots in use are equally many. */
  lemma {:induction false} SlotsHeld(held: seq<Hold>)
    requires Paired(held)
    ensures |Sectors(Asked(held))| == |HeldSlots(held)|
  {
    if held != [] {
      var n := |held| - 1;
      hide Paired, Sectors, HeldSlots, CountHolds;
      NewAddress(held);
      SlotsHeld(held[..n]);
      SectorsOn(held);
      HeldSlotsOn(held);
      AddOne(Sectors(Asked(held[..n])), held[n].address);
      AddOne(HeldSlots(held[..n]), held[n].bp);
    }
  }

  lemma SectorsOn(held: seq<Hold>)
    requires held != []
    ensures var n := |held| - 1; Sectors(Asked(held)) == Sectors(Asked(held[..n])) + {held[n].address}
  {
    var n := |held| - 1;
    var s, s' := Asked(held), Asked(held[..n]);
    assert s[..n] == s' && s == s' + [held[n].address];
    forall a | a in Sectors(s) ensures a in Sectors(s') + {held[n].address} {
      var k :| 0 <= k < |s| && s[k] == a;
      assert k < n ==> s'[k] == a;
    }
    forall a | a in Sectors(s') ensures a in Sectors(s) {
      var k :| 0 <= k < n && s'[k] == a;
      assert s[k] == a;
    }
    assert s[n] == held[n].address;
  }

  lemma NewAddress(held: seq<Hold>)
    requires held != [] && Paired(held)
    ensures var n := |held| - 1;
            Paired(held[..n]) && (held[n].address in Sectors(Asked(held[..n])) <==> held[n].bp in HeldSlots(held[..n]))
  {
    var n := |held| - 1;
    var before, h := held[..n], held[n];
    assert forall k :: 0 <= k < n ==> before[k] == held[k];
    if h.bp in HeldSlots(before) {
      var k :| 0 <= k < n && before[k].bp == h.bp;
      assert Asked(before)[k] == h.address;
    }
    if h.address in Sectors(Asked(before)) {
      var k :| 0 <= k < n && Asked(before)[k] == h.address;
      assert held[k].bp == h.bp && before[k].bp == h.bp;
    }
  }

  lemma {:induction false} CountBoth(held: seq<Hold>, bp: nat, a: nat)
    requires forall k :: 0 <= k < |held| ==> (held[k].bp == bp <==> held[k].address == a)
    ensures CountOf(Asked(held), a) == CountHolds(held, bp)
  {
    if held != [] {
      var n := |held| - 1;
      assert forall k :: 0 <= k < n ==> held[..n][k] == held[k];
      assert Asked(held)[..n] == Asked(held[..n]);
      CountBoth(held[..n], bp, a);
    }
  }

  /** A hold is on a slot exactly if it is on its sector. */
  lemma SameSlot(slots: seq<Slot>, dev: seq<Sector>, view: seq<Sector>, held: seq<Hold>, k: nat, bp: nat)
    requires Coherent(slots, dev, view) && Spread(slots, held) && k < |held| && bp < |slots| && slots[bp].valid
    ensures held[k].bp == bp <==> held[k].address == slots[bp].sector
  {
    assert Matches(held[k], held[k].bp, slots[held[k].bp].sector, slots[held[k].bp].writable);
    var i, j := if held[k].bp < bp then held[k].bp else bp, if held[k].bp < bp then bp else held[k].bp;
    assert i < j ==> slots[i].sector != slots[j].sector;
  }

  // ---- both ----

  /** The use count of a cached sector. */
  lemma UsageIs(numit: nat, slots: seq<Slot>, dev: seq<Sector>, view: seq<Sector>, held: seq<Hold>, bp: nat)
    requires CacheOk(numit, slots, dev, view, held) && bp < |slots| && slots[bp].valid
    ensures slots[bp].usage == UseCount(|slots|, Asked(held), slots[bp].sector)
  {
    if |slots| > 1 {
      forall k | 0 <= k < |held| ensures held[k].bp == bp <==> held[k].address == slots[bp].sector {
        SameSlot(slots, dev, view, held, k, bp);
      }
      CountBoth(held, bp, slots[bp].sector);
    } else if held != [] {
      RunsAreFrames(slots[0].Header(), slots[0].Frames(), held, |dev|);
    }
  }

  /** A request is served without overallocating among several buffers, and not refused by a single one, exactly if there
      is room for it. */
  lemma RoomIff(numit: nat, slots: seq<Slot>, dev: seq<Sector>, view: seq<Sector>, held: seq<Hold>, a: nat)
    requires CacheOk(numit, slots, dev, view, held)
    ensures HasRoom(|slots|, numit, Asked(held), a) <==>
              || Cached(slots, a)
              || (exists i :: 0 <= i < |slots| && slots[i].usage == 0)
              || (|slots| == 1 && slots[0].itptr < numit)
  {
    if |slots| == 1 {
      RoomOfOne(numit, slots, dev, view, held, a);
    } else {
      RoomOfMany(numit, slots, dev, view, held, a);
    }
  }

  lemma RoomOfOne(numit: nat, slots: seq<Slot>, dev: seq<Sector>, view: seq<Sector>, held: seq<Hold>, a: nat)
    requires CacheOk(numit, slots, dev, view, held) && |slots| == 1
    ensures HasRoom(1, numit, Asked(held), a) <==> Cached(slots, a) || slots[0].usage == 0 || slots[0].itptr < numit
  {
    assert slots[0].Shaped(numit);
    if held != [] {
      RunsAreFrames(slots[0].Header(), slots[0].Frames(), held, |dev|);
    }
  }

  lemma RoomOfMany(numit: nat, slots: seq<Slot>, dev: seq<Sector>, view: seq<Sector>, held: seq<Hold>, a: nat)
    requires CacheOk(numit, slots, dev, view, held) && |slots| > 1
    ensures HasRoom(|slots|, numit, Asked(held), a) <==> Cached(slots, a) || exists i :: 0 <= i < |slots| && slots[i].usage == 0
  {
    HoldsPaired(slots, dev, view, held);
    SlotsHeld(held);
    UsedSlots(slots, held);
    HeldCached(slots, held, a);
    hide Coherent, Spread, Sectors, HeldSlots, Cached;
  }

  lemma HoldsPaired(slots: seq<Slot>, dev: seq<Sector>, view: seq<Sector>, held: seq<Hold>)
    requires Coherent(slots, dev, view) && Spread(slots, held)
    ensures Paired(held)
  {
    forall k, l | 0 <= k < |held| && 0 <= l < |held| ensures held[k].address == held[l].address <==> held[k].bp == held[l].bp {
      assert Matches(held[l], held[l].bp, slots[held[l].bp].sector, slots[held[l].bp].writable);
      SameSlot(slots, dev, view, held, k, held[l].bp);
    }
  }

  /** A sector that is held is cached; a sector that is cached and not held is in an unused slot. */
  lemma HeldCached(slots: seq<Slot>, held: seq<Hold>, a: nat)
    requires Spread(slots, held)
    ensures a in Sectors(Asked(held)) ==> Cached(slots, a)
    ensures Cached(slots, a) && a !in Sectors(Asked(held)) ==> exists i :: 0 <= i < |slots| && slots[i].usage == 0
  {
    if a in Sectors(Asked(held)) {
      var k :| 0 <= k < |held| && Asked(held)[k] == a;
      assert Matches(held[k], held[k].bp, slots[held[k].bp].sector, slots[held[k].bp].writable);
    }
    if Cached(slots, a) {
      var i :| 0 <= i < |slots| && slots[i].valid && slots[i].sector == a;
      assert slots[i].usage == CountHolds(held, i);
      if slots[i].usage > 0 {
        BpHeld(held, i);
        var k :| 0 <= k < |held| && held[k].bp == i;
        assert Matches(held[k], i, slots[i].sector, slots[i].writable);
        assert Asked(held)[k] == a;
      }
    }
  }

  /** All slots are in use exactly if as many slots are held as there are. */
  lemma UsedSlots(slots: seq<Slot>, held: seq<Hold>)
    requires Spread(slots, held)
    ensures |HeldSlots(held)| < |slots| <==> exists i :: 0 <= i < |slots| && slots[i].usage == 0
  {
    var all, used := Below(|slots|), HeldSlots(held);
    assert used <= all;
    forall i | 0 <= i < |slots| ensures slots[i].usage == 0 <==> i !in used {
      assert slots[i].usage == CountHolds(held, i);
      if CountHolds(held, i) > 0 { BpHeld(held, i); }
      if i in used { var k :| 0 <= k < |held| && held[k].bp == i; HoldCounted(held, k); }
    }
    if used != all {
      var i :| i in all && i !in used;
      assert slots[i].usage == 0;
      SubsetSize(used, all - {i});
    }
  }
}
