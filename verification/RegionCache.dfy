/** The per-thread cache of readable memory regions in front of the system's memory query. */
module RegionCache {
  import opened Optional

  const WORD: nat := 0x1_0000_0000_0000_0000
  const TICKS: nat := 0x1_0000_0000
  const PAGE: nat := 4096
  const PAGES: nat := 0x10_0000_0000_0000
  const MIN_USER_POINTER: nat := 0x10000
  const SLOTS: nat := 32
  const TTL: nat := 100

  type Address = a: nat | a < WORD
  type Tick = t: nat | t < TICKS

  // ----- memory and its query -----

  /** What the query distinguishes: adjacent pages with equal attributes form one region. */
  datatype Attributes = Attributes(allocation: nat, committed: bool, protect: bv32)

  /** The attributes of every page, or None where a query fails. */
  type Memory = nat -> Option<Attributes>

  function ProtectAllowsRead(protect: bv32): bool {
    protect & 0x100 == 0 && protect & 0x01 == 0 && AccessAllowsRead(protect & 0xff)
  }

  /** A guard page and a page without access are never readable; the six kinds of access are, whatever else is set. */
  lemma ProtectMeans(protect: bv32)
    ensures protect & 0x100 != 0 || protect & 0x01 != 0 ==> !ProtectAllowsRead(protect)
    ensures protect & 0x100 == 0 && protect & 0xff in {0x02, 0x04, 0x08, 0x20, 0x40, 0x80} ==>
      ProtectAllowsRead(protect)
    ensures protect & 0xff !in {0x02, 0x04, 0x08, 0x20, 0x40, 0x80} ==> !ProtectAllowsRead(protect)
  {
  }

  function AccessAllowsRead(access: bv32): bool {
    access == 0x02 || access == 0x04 || access == 0x08 || access == 0x20 || access == 0x40 || access == 0x80
  }

  /** The first page after p that is not in p's region. */
  function RunEnd(memory: Memory, p: nat): (r: nat)
    requires p < PAGES
    ensures p < r <= PAGES
    decreases PAGES - p
  {
    if p + 1 < PAGES && memory(p + 1) == memory(p) then RunEnd(memory, p + 1) else p + 1
  }

  lemma {:induction false} RunIsUniform(memory: Memory, p: nat, q: nat)
    requires p < PAGES && p <= q < RunEnd(memory, p)
    ensures memory(q) == memory(p) && RunEnd(memory, q) == RunEnd(memory, p)
    decreases q - p
  {
    if q > p {
      RunIsUniform(memory, p + 1, q);
    }
  }

  lemma {:induction false} RunIsMaximal(memory: Memory, p: nat, q: nat)
    requires p <= q < PAGES && forall x :: p <= x <= q ==> memory(x) == memory(p)
    ensures q < RunEnd(memory, p)
    decreases q - p
  {
    if q > p {
      RunIsMaximal(memory, p + 1, q);
    }
  }

  function PageOf(a: Address): (p: nat)
    ensures p < PAGES && p * PAGE <= a < (p + 1) * PAGE
  {
    a / PAGE
  }

  function RegionBase(a: Address): Address {
    PageOf(a) * PAGE
  }

  /** One past the region of a; it wraps to zero for the region at the top of the address space. */
  function RegionEnd(memory: Memory, a: Address): Address {
    RunEnd(memory, PageOf(a)) * PAGE % WORD
  }

  function ReadablePage(memory: Memory, p: nat): bool {
    var attributes := memory(p);
    attributes.Some? && attributes.value.committed && ProtectAllowsRead(attributes.value.protect)
  }

  function EndOf(start: Address, size: Address): Address {
    (start + size) % WORD
  }

  function InRange(start: Address, size: Address): bool {
    size != 0 && start >= MIN_USER_POINTER && EndOf(start, size) > start
  }

  /** The answer of the query alone. */
  function Uncached(memory: Memory, start: Address, size: Address): bool {
    InRange(start, size)
    && ReadablePage(memory, PageOf(start))
    && RegionBase(start) < RegionEnd(memory, start)
    && EndOf(start, size) <= RegionEnd(memory, start)
  }

  lemma TopWraps(memory: Memory, a: Address)
    ensures RegionEnd(memory, a) == (if RunEnd(memory, PageOf(a)) == PAGES then 0 else RunEnd(memory, PageOf(a)) * PAGE)
  {
    var r := RunEnd(memory, PageOf(a));
    assert PAGES * PAGE == WORD;
    if r < PAGES {
      assert r * PAGE < WORD;
    }
  }

  lemma NoWrap(start: Address, size: Address)
    requires size > 0
    ensures EndOf(start, size) > start <==> start + size < WORD
    ensures start + size < WORD ==> EndOf(start, size) == start + size
  {
    if start + size >= WORD {
      assert EndOf(start, size) == start + size - WORD;
    }
  }

  /** A range ends within the first r pages exactly when its last byte lies on one of them. */
  lemma LastPage(start: Address, size: Address, r: nat)
    requires size > 0 && start + size < WORD
    ensures start + size <= r * PAGE <==> PageOf(start + size - 1) < r
    ensures PageOf(start) <= PageOf(start + size - 1)
  {
  }

  /** The pages of a range all report the first one's attributes exactly when they lie in its run. */
  lemma WithinRun(memory: Memory, first: nat, last: nat)
    requires first <= last < PAGES
    ensures (forall p :: first <= p <= last ==> memory(p) == memory(first)) <==> last < RunEnd(memory, first)
  {
    if last < RunEnd(memory, first) {
      forall p | first <= p <= last ensures memory(p) == memory(first) {
        RunIsUniform(memory, first, p);
      }
    } else if forall p :: first <= p <= last ==> memory(p) == memory(first) {
      RunIsMaximal(memory, first, last);
    }
  }

  lemma BaseBelowEnd(memory: Memory, start: Address)
    requires RunEnd(memory, PageOf(start)) < PAGES
    ensures RegionEnd(memory, start) == RunEnd(memory, PageOf(start)) * PAGE
    ensures RegionBase(start) < RegionEnd(memory, start)
  {
    TopWraps(memory, start);
  }

  /**
   What the query decides: every byte of the range lies on a readable page with the attributes of the
   first, and that region does not reach the very top of the address space.
   */
  lemma UncachedExactly(memory: Memory, start: Address, size: Address)
    ensures Uncached(memory, start, size) <==>
              && size > 0 && MIN_USER_POINTER <= start && start + size < WORD
              && memory(PageOf(start)).Some?
              && (var attributes := memory(PageOf(start)).value;
                  && attributes.committed && attributes.protect & 0x100 == 0
                  && attributes.protect & 0xff in {0x02, 0x04, 0x08, 0x20, 0x40, 0x80})
              && (forall p :: PageOf(start) <= p <= PageOf(start + size - 1) ==> memory(p) == memory(PageOf(start)))
              && RunEnd(memory, PageOf(start)) < PAGES
  {
    TopWraps(memory, start);
    if memory(PageOf(start)).Some? {
      ProtectMeans(memory(PageOf(start)).value.protect);
    }
    if size > 0 {
      NoWrap(start, size);
      if start + size < WORD {
        LastPage(start, size, RunEnd(memory, PageOf(start)));
        WithinRun(memory, PageOf(start), PageOf(start + size - 1));
        if RunEnd(memory, PageOf(start)) < PAGES {
          BaseBelowEnd(memory, start);
        }
      }
    }
  }

  // ----- the cache -----

  datatype Entry = Entry(base: Address, end: Address, tick: Tick)

  function Empty(): (r: seq<Entry>)
    ensures |r| == SLOTS && forall i :: 0 <= i < SLOTS ==> r[i] == Entry(0, 0, 0)
  {
    seq(SLOTS, _ => Entry(0, 0, 0))
  }

  function Elapsed(now: Tick, tick: Tick): Tick {
    (now - tick) % TICKS
  }

  function Covers(e: Entry, start: Address, end: Address, now: Tick): bool {
    e.base != 0 && e.base < e.end && e.tick != 0 && Elapsed(now, e.tick) <= TTL && e.base <= start && end <= e.end
  }

  predicate Hit(entries: seq<Entry>, start: Address, end: Address, now: Tick) {
    exists i :: 0 <= i < |entries| && Covers(entries[i], start, end, now)
  }

  function SlotOf(base: Address): (slot: nat)
    ensures slot < SLOTS
  {
    base / PAGE % SLOTS
  }

  function Stored(entries: seq<Entry>, base: Address, end: Address, now: Tick): (r: seq<Entry>)
    requires |entries| == SLOTS
    ensures |r| == SLOTS
  {
    if base < MIN_USER_POINTER || end <= base then entries else entries[SlotOf(base) := Entry(base, end, now)]
  }

  datatype Reply = Reply(entries: seq<Entry>, readable: bool)

  /** One call: range checks, cache, query, store. */
  ghost function Lookup(memory: Memory, entries: seq<Entry>, start: Address, size: Address, now: Tick): (r: Reply)
    requires |entries| == SLOTS
    ensures |r.entries| == SLOTS
  {
    if !InRange(start, size) then Reply(entries, false)
    else if Hit(entries, start, EndOf(start, size), now) then Reply(entries, true)
    else if Uncached(memory, start, size) then
      Reply(Stored(entries, RegionBase(start), RegionEnd(memory, start), now), true)
    else Reply(entries, false)
  }

  // ----- one call in one memory -----

  /** A usable entry is a readable region of this memory. */
  ghost predicate Holds(memory: Memory, e: Entry) {
    e.base != 0 && e.base < e.end ==> ReadablePage(memory, PageOf(e.base)) && RegionEnd(memory, e.base) == e.end
  }

  ghost predicate Good(memory: Memory, entries: seq<Entry>) {
    |entries| == SLOTS && forall i :: 0 <= i < |entries| ==> Holds(memory, entries[i])
  }

  /** A range inside a remembered region gets the query's own answer. */
  lemma CoveredIsReadable(memory: Memory, e: Entry, start: Address, size: Address, now: Tick)
    requires Holds(memory, e) && InRange(start, size) && Covers(e, start, EndOf(start, size), now)
    ensures Uncached(memory, start, size)
  {
    TopWraps(memory, e.base);
    TopWraps(memory, start);
    var p, q, r := PageOf(e.base), PageOf(start), RunEnd(memory, PageOf(e.base));
    assert start < r * PAGE;
    assert p <= q < r;
    RunIsUniform(memory, p, q);
  }

  lemma StoredHolds(memory: Memory, start: Address, size: Address, now: Tick)
    requires Uncached(memory, start, size)
    ensures Holds(memory, Entry(RegionBase(start), RegionEnd(memory, start), now))
  {
    assert PageOf(RegionBase(start)) == PageOf(start);
  }

  /** In an unchanging memory the cache changes no answer, at any tick, and stays sound. */
  lemma LookupIsTransparent(memory: Memory, entries: seq<Entry>, start: Address, size: Address, now: Tick)
    requires Good(memory, entries)
    ensures Lookup(memory, entries, start, size, now).readable == Uncached(memory, start, size)
    ensures Good(memory, Lookup(memory, entries, start, size, now).entries)
  {
    if InRange(start, size) {
      if Hit(entries, start, EndOf(start, size), now) {
        var i :| 0 <= i < |entries| && Covers(entries[i], start, EndOf(start, size), now);
        CoveredIsReadable(memory, entries[i], start, size, now);
      } else if Uncached(memory, start, size) {
        StoredHolds(memory, start, size, now);
      }
    }
  }

  // ----- histories -----

  /** A call with the memory it finds and the true time, of which the clock shows the low 32 bits. */
  datatype Call = Call(memory: Memory, start: Address, size: Address, time: nat)

  function TickAt(c: Call): Tick {
    c.time % TICKS
  }

  ghost function CallOn(entries: seq<Entry>, c: Call): (r: Reply)
    requires |entries| == SLOTS
    ensures |r.entries| == SLOTS
  {
    Lookup(c.memory, entries, c.start, c.size, TickAt(c))
  }

  ghost function CacheAfter(calls: seq<Call>): (r: seq<Entry>)
    ensures |r| == SLOTS
    decreases |calls|
  {
    if calls == [] then Empty()
    else CallOn(CacheAfter(calls[..|calls| - 1]), calls[|calls| - 1]).entries
  }

  ghost predicate Answer(calls: seq<Call>, n: nat)
    requires n < |calls|
  {
    CallOn(CacheAfter(calls[..n]), calls[n]).readable
  }

  /** Every usable entry was put there by some earlier call, from that call's memory, at that call's tick. */
  ghost predicate Traced(calls: seq<Call>, e: Entry) {
    e.base != 0 && e.base < e.end ==>
      exists j :: 0 <= j < |calls| && Holds(calls[j].memory, e) && e.tick == TickAt(calls[j])
  }

  lemma TracedLater(calls: seq<Call>, c: Call, e: Entry)
    requires Traced(calls, e)
    ensures Traced(calls + [c], e)
  {
    if e.base != 0 && e.base < e.end {
      var j :| 0 <= j < |calls| && Holds(calls[j].memory, e) && e.tick == TickAt(calls[j]);
      assert (calls + [c])[j] == calls[j];
    }
  }

  lemma {:induction false} AllTraced(calls: seq<Call>)
    ensures forall i :: 0 <= i < SLOTS ==> Traced(calls, CacheAfter(calls)[i])
    decreases |calls|
  {
    if calls != [] {
      var front, c := calls[..|calls| - 1], calls[|calls| - 1];
      AllTraced(front);
      assert calls == front + [c];
      var before, after := CacheAfter(front), CacheAfter(calls);
      forall i | 0 <= i < SLOTS ensures Traced(calls, after[i]) {
        if after[i] == before[i] {
          TracedLater(front, c, before[i]);
        } else {
          StoredHolds(c.memory, c.start, c.size, TickAt(c));
          assert calls[|front|] == c;
        }
      }
    }
  }

  /**
   In any history, even of a changing memory, an answer is the query's own, or it is the positive answer
   the query would have given at an earlier call at most 100 ticks back on the 32-bit clock.
   */
  lemma AnswersAreRecent(calls: seq<Call>, n: nat)
    requires n < |calls|
    ensures
      || Answer(calls, n) == Uncached(calls[n].memory, calls[n].start, calls[n].size)
      || (Answer(calls, n)
          && exists j :: 0 <= j < n && Elapsed(TickAt(calls[n]), TickAt(calls[j])) <= 100
                         && Uncached(calls[j].memory, calls[n].start, calls[n].size))
  {
    var c, entries := calls[n], CacheAfter(calls[..n]);
    if InRange(c.start, c.size) && Hit(entries, c.start, EndOf(c.start, c.size), TickAt(c)) {
      var i :| 0 <= i < |entries| && Covers(entries[i], c.start, EndOf(c.start, c.size), TickAt(c));
      AllTraced(calls[..n]);
      assert Traced(calls[..n], entries[i]);
      var j :| 0 <= j < n && Holds(calls[..n][j].memory, entries[i]) && entries[i].tick == TickAt(calls[..n][j]);
      assert calls[..n][j] == calls[j];
      CoveredIsReadable(calls[j].memory, entries[i], c.start, c.size, TickAt(c));
    }
  }

  /** Transparency: while the memory does not change, every call of every history gets the query's answer. */
  lemma HistoryIsTransparent(calls: seq<Call>, n: nat, memory: Memory)
    requires n < |calls| && forall j :: 0 <= j <= n ==> calls[j].memory == memory
    ensures Answer(calls, n) == Uncached(memory, calls[n].start, calls[n].size)
  {
    AnswersAreRecent(calls, n);
  }

  lemma AgeOnTheClock(stored: nat, now: nat)
    requires stored <= now
    ensures Elapsed(now % TICKS, stored % TICKS) == (now - stored) % TICKS
  {
    var a, b := now % TICKS, stored % TICKS;
    assert now == now / TICKS * TICKS + a && stored == stored / TICKS * TICKS + b;
    SameRemainder(now - stored, a - b, now / TICKS - stored / TICKS);
  }

  /**
   When a remembered region answers: its age modulo 2^32 is within the limit and it was not stored at
   clock zero. So an entry goes stale after 100 ticks and is used again for 100 ticks every 2^32.
   */
  lemma CoversExactly(e: Entry, stored: nat, now: nat, start: Address, end: Address)
    requires stored <= now && e.tick == stored % TICKS
    requires e.base != 0 && e.base < e.end && e.base <= start && end <= e.end
    ensures Covers(e, start, end, now % TICKS) <==> stored % TICKS != 0 && (now - stored) % TICKS <= 100
  {
    AgeOnTheClock(stored, now);
  }

  lemma SameRemainder(x: int, y: int, m: int)
    requires x == m * TICKS + y
    ensures x % TICKS == y % TICKS
  {
    var q := y / TICKS;
    assert x == (m + q) * TICKS + y % TICKS;
    assert x - x / TICKS * TICKS == x % TICKS;
    var k := x / TICKS - (m + q);
    assert k * TICKS == y % TICKS - x % TICKS;
  }

  // ----- the cache in place -----

  class Cache {
    const slots: array<Entry>

    ghost predicate Valid() {
      slots.Length == SLOTS
    }

    constructor ()
      ensures Valid() && fresh(slots) && slots[..] == Empty()
    {
      slots := new Entry[SLOTS](_ => Entry(0, 0, 0));
    }

    method FindHit(start: Address, end: Address, now: Tick) returns (hit: bool)
      requires Valid()
      ensures hit == Hit(slots[..], start, end, now)
    {
      for i := 0 to SLOTS
        invariant forall k :: 0 <= k < i ==> !Covers(slots[k], start, end, now)
      {
        var e := slots[i];
        if e.base == 0 || e.end <= e.base || e.tick == 0 {
          continue;
        }
        if Elapsed(now, e.tick) > TTL {
          continue;
        }
        if start >= e.base && end <= e.end {
          assert Covers(slots[..][i], start, end, now);
          return true;
        }
      }
      return false;
    }

    method Store(base: Address, end: Address, now: Tick)
      requires Valid()
      modifies slots
      ensures slots[..] == Stored(old(slots[..]), base, end, now)
    {
      if base < MIN_USER_POINTER || end <= base {
        return;
      }
      slots[base / PAGE % SLOTS] := Entry(base, end, now);
    }

    /** The cached call agrees with the query as long as the cache was filled from the same memory. */
    method RangeReadable(memory: Memory, start: Address, size: Address, now: Tick) returns (readable: bool)
      requires Valid()
      modifies slots
      ensures Reply(slots[..], readable) == Lookup(memory, old(slots[..]), start, size, now)
      ensures old(Good(memory, slots[..])) ==> readable == Uncached(memory, start, size) && Good(memory, slots[..])
    {
      if old(Good(memory, slots[..])) {
        LookupIsTransparent(memory, slots[..], start, size, now);
      }
      if start == 0 || size == 0 {
        return false;
      }
      if start < MIN_USER_POINTER {
        return false;
      }
      var end := (start + size) % WORD;
      if end <= start {
        return false;
      }
      var hit := FindHit(start, end, now);
      if hit {
        return true;
      }
      var attributes := memory(PageOf(start));
      if attributes.None? {
        return false;
      }
      if !attributes.value.committed || !ProtectAllowsRead(attributes.value.protect) {
        return false;
      }
      var base, regionEnd := RegionBase(start), RegionEnd(memory, start);
      if regionEnd <= base || end > regionEnd {
        return false;
      }
      Store(base, regionEnd, now);
      return true;
    }
  }
}
