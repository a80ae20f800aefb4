/** The firmware's read cache over an SD-card file: one large sliding window for streaming and
    sixteen small pages for scattered re-reads. */
module SdCard {
  import opened Bytes
  import opened Counting
  import Layout

  const SLOTS := 16
  const PAGE := 4096
  const MIN_CACHE_SIZE := 32 * 1024
  const MAX_CACHE_SIZE := 512 * 1024
  const WRAP := 0x1_0000_0000

  datatype PageSlot = PageSlot(page: nat, len: nat, stamp: nat, valid: bool)

  function Min(a: nat, b: nat): nat {
    if a < b then a else b
  }

  /** Bytes of the file on page p. */
  function PageLen(size: nat, p: nat): nat {
    if p * PAGE >= size then 0 else Min(PAGE, size - p * PAGE)
  }

  /** Where the window holding offset starts. */
  function WindowStart(capacity: nat, offset: nat): nat
    requires capacity > 0
  {
    offset / capacity * capacity
  }

  /** buf[at..at + n] shows the file from position pos. */
  ghost predicate Shows(file: seq<byte>, buf: seq<byte>, at: nat, pos: nat, n: nat) {
    && at + n <= |buf| && pos + n <= |file|
    && forall k :: at <= k < at + n ==> buf[k] == file[pos + k - at]
  }

  ghost predicate SlotShows(file: seq<byte>, pages: seq<byte>, slots: seq<PageSlot>, i: nat)
    requires i < |slots|
  {
    slots[i].valid ==> 0 < slots[i].len <= PAGE && Shows(file, pages, i * PAGE, slots[i].page * PAGE, slots[i].len)
  }

  ghost predicate DistinctPages(slots: seq<PageSlot>) {
    forall i, j :: 0 <= i < j < |slots| && slots[i].valid && slots[j].valid ==> slots[i].page != slots[j].page
  }

  /** Every page slot shows the file, and no page is held twice. */
  ghost predicate PagesShow(file: seq<byte>, pages: seq<byte>, slots: seq<PageSlot>) {
    && |slots| == SLOTS
    && (forall i :: 0 <= i < |slots| ==> SlotShows(file, pages, slots, i))
    && DistinctPages(slots)
  }

  /** No page was cut short by an incomplete read. */
  ghost predicate PagesFull(size: nat, slots: seq<PageSlot>) {
    forall i :: 0 <= i < |slots| && slots[i].valid ==> slots[i].len == PageLen(size, slots[i].page)
  }

  // ---- Which pages are held ----

  /** One past the position of the last use of p in the trace, zero if it was never used. */
  function LastUse(trace: seq<nat>, p: nat): (n: nat)
    ensures n <= |trace|
  {
    if trace == [] then 0
    else if trace[|trace| - 1] == p then |trace|
    else LastUse(trace[..|trace| - 1], p)
  }

  ghost predicate Cached(slots: seq<PageSlot>, p: nat) {
    exists i :: 0 <= i < |slots| && slots[i].valid && slots[i].page == p
  }

  /** Until the 32-bit clock wraps, every stamp is the last use of its page, a page that is not
      held was used before all those that are, and no page is missing while a slot is free. */
  ghost predicate StampsAreUses(slots: seq<PageSlot>, clock: nat, trace: seq<nat>) {
    |trace| < WRAP ==>
      && clock == |trace|
      && (forall i :: 0 <= i < |slots| && slots[i].valid ==> slots[i].stamp == LastUse(trace, slots[i].page) > 0)
      && (forall p, i :: 0 <= i < |slots| && LastUse(trace, p) > 0 && !Cached(slots, p) ==>
            slots[i].valid && LastUse(trace, p) < slots[i].stamp)
  }

  /** The pages used more recently than p. */
  ghost function NewerThan(trace: seq<nat>, p: nat): set<nat> {
    set q | q in trace && LastUse(trace, q) > LastUse(trace, p)
  }

  lemma {:induction false} LastUseMembers(trace: seq<nat>, p: nat)
    ensures LastUse(trace, p) > 0 <==> p in trace
  {
    if trace != [] {
      assert trace == trace[..|trace| - 1] + [trace[|trace| - 1]];
      LastUseMembers(trace[..|trace| - 1], p);
    }
  }

  lemma LastUseNext(trace: seq<nat>, p: nat)
    ensures forall q :: LastUse(trace + [p], q) == if q == p then |trace| + 1 else LastUse(trace, q)
  {
    assert (trace + [p])[..|trace|] == trace;
  }

  /** The pages in the first n slots. */
  function PagesIn(slots: seq<PageSlot>, n: nat): set<nat>
    requires n <= |slots|
  {
    if n == 0 then {}
    else PagesIn(slots, n - 1) + if slots[n - 1].valid then {slots[n - 1].page} else {}
  }

  lemma {:induction false} PagesInMembers(slots: seq<PageSlot>, n: nat)
    requires n <= |slots|
    ensures forall p :: p in PagesIn(slots, n) <==> exists i :: 0 <= i < n && slots[i].valid && slots[i].page == p
  {
    if n > 0 {
      PagesInMembers(slots, n - 1);
    }
  }

  lemma {:induction false} PagesInCount(slots: seq<PageSlot>, n: nat)
    requires n <= |slots| && DistinctPages(slots)
    ensures |PagesIn(slots, n)| <= n
    ensures (forall i :: 0 <= i < n ==> slots[i].valid) ==> |PagesIn(slots, n)| == n
  {
    if n > 0 {
      PagesInCount(slots, n - 1);
      PagesInMembers(slots, n - 1);
      assert slots[n - 1].valid ==> slots[n - 1].page !in PagesIn(slots, n - 1);
    }
  }

  /** Least-recently-used replacement: a page is held iff it was used and fewer than sixteen
      other pages were used after it. */
  lemma HeldIffAmongNewest(slots: seq<PageSlot>, clock: nat, trace: seq<nat>, p: nat)
    requires |slots| == SLOTS && |trace| < WRAP && StampsAreUses(slots, clock, trace)
    requires DistinctPages(slots)
    ensures Cached(slots, p) <==> p in trace && |NewerThan(trace, p)| < SLOTS
  {
    var held, newer := PagesIn(slots, SLOTS), NewerThan(trace, p);
    PagesInMembers(slots, SLOTS);
    PagesInCount(slots, SLOTS);
    LastUseMembers(trace, p);
    forall q
      ensures q in held <==> Cached(slots, q)
      ensures q in trace <==> LastUse(trace, q) > 0
    {
      LastUseMembers(trace, q);
    }
    if Cached(slots, p) {
      assert newer <= held - {p};
      SubsetSize(newer, held - {p});
    } else if p in trace {
      assert held <= newer;
      SubsetSize(held, newer);
    }
  }

  lemma HitKeepsUses(slots: seq<PageSlot>, clock: nat, trace: seq<nat>, i: nat)
    requires StampsAreUses(slots, clock, trace) && i < |slots| && slots[i].valid
    requires DistinctPages(slots)
    ensures StampsAreUses(slots[i := slots[i].(stamp := (clock + 1) % WRAP)], (clock + 1) % WRAP, trace + [slots[i].page])
  {
    hide LastUse;
    var slots' := slots[i := slots[i].(stamp := (clock + 1) % WRAP)];
    LastUseNext(trace, slots[i].page);
    forall p
      ensures Cached(slots', p) <==> Cached(slots, p)
    {
      SameCached(slots, slots', p);
    }
  }

  lemma SameCached(slots: seq<PageSlot>, slots': seq<PageSlot>, p: nat)
    requires |slots| == |slots'|
    requires forall i :: 0 <= i < |slots| ==> slots[i].valid == slots'[i].valid && slots[i].page == slots'[i].page
    ensures Cached(slots', p) <==> Cached(slots, p)
  {
    if Cached(slots', p) {
      var i :| 0 <= i < |slots'| && slots'[i].valid && slots'[i].page == p;
      assert slots[i].valid;
    }
    if Cached(slots, p) {
      var i :| 0 <= i < |slots| && slots[i].valid && slots[i].page == p;
      assert slots'[i].valid;
    }
  }

  lemma LoadKeepsUses(slots: seq<PageSlot>, clock: nat, trace: seq<nat>, i: nat, p: nat, len: nat)
    requires StampsAreUses(slots, clock, trace) && i < |slots| && !Cached(slots, p)
    requires DistinctPages(slots)
    requires slots[i].valid ==> forall j :: 0 <= j < |slots| ==> slots[j].valid && slots[i].stamp <= slots[j].stamp
    ensures StampsAreUses(slots[i := PageSlot(p, len, (clock + 1) % WRAP, true)], (clock + 1) % WRAP, trace + [p])
  {
    hide LastUse;
    var slots' := slots[i := PageSlot(p, len, (clock + 1) % WRAP, true)];
    LastUseNext(trace, p);
    forall q, j | 0 <= j < |slots'| && |trace| + 1 < WRAP && LastUse(trace + [p], q) > 0 && !Cached(slots', q)
      ensures slots'[j].valid && LastUse(trace + [p], q) < slots'[j].stamp
    {
      assert slots'[i].page == p;
      assert q != p;
      if Cached(slots, q) {
        var k :| 0 <= k < |slots| && slots[k].valid && slots[k].page == q;
        assert slots'[k].page == (if k == i then p else q);
        assert j != i ==> slots[j].stamp == LastUse(trace, slots[j].page);
        if j != i && slots[j].stamp == slots[i].stamp {
          SameUse(trace, slots[j].page, q);
        }
      }
    }
  }

  /** No two pages were used last at the same time. */
  lemma {:induction false} SameUse(trace: seq<nat>, p: nat, q: nat)
    requires LastUse(trace, p) == LastUse(trace, q) > 0
    ensures p == q
  {
    if trace[|trace| - 1] != p && trace[|trace| - 1] != q {
      SameUse(trace[..|trace| - 1], p, q);
    }
  }

  // ---- Contents ----

  lemma HitKeepsPages(file: seq<byte>, pages: seq<byte>, slots: seq<PageSlot>, i: nat, stamp: nat)
    requires PagesShow(file, pages, slots) && i < |slots|
    ensures PagesShow(file, pages, slots[i := slots[i].(stamp := stamp)])
    ensures PagesFull(|file|, slots) ==> PagesFull(|file|, slots[i := slots[i].(stamp := stamp)])
  {
    hide Shows;
    var slots' := slots[i := slots[i].(stamp := stamp)];
    forall j | 0 <= j < |slots'|
      ensures SlotShows(file, pages, slots', j)
    {
      assert SlotShows(file, pages, slots, j);
    }
  }

  lemma LoadKeepsPages(file: seq<byte>, pages: seq<byte>, pages': seq<byte>, slots: seq<PageSlot>, i: nat, s: PageSlot)
    requires PagesShow(file, pages, slots) && i < |slots| && |pages'| == |pages| == SLOTS * PAGE
    requires forall j :: 0 <= j < |slots| && slots[j].valid ==> slots[j].page != s.page
    requires s.valid && 0 < s.len <= PAGE && Shows(file, pages', i * PAGE, s.page * PAGE, s.len)
    requires forall k :: 0 <= k < |pages| && !(i * PAGE <= k < i * PAGE + s.len) ==> pages'[k] == pages[k]
    ensures PagesShow(file, pages', slots[i := s])
    ensures PagesFull(|file|, slots) && s.len == PageLen(|file|, s.page) ==> PagesFull(|file|, slots[i := s])
  {
    var slots' := slots[i := s];
    forall j | 0 <= j < |slots'|
      ensures SlotShows(file, pages', slots', j)
    {
      if j != i {
        assert SlotShows(file, pages, slots, j);
        assert j * PAGE + PAGE <= i * PAGE || i * PAGE + PAGE <= j * PAGE;
      }
    }
  }

  // ---- What a read delivers ----

  /** The card's part in one seek and read: does the seek succeed, and how many bytes arrive if
      there are that many to read. */
  datatype Access = Access(seekOk: bool, arrives: nat)

  /** The card during one call of read(): for each page, and for the first and second refill. */
  datatype Card = Card(pages: nat -> Access, first: Access, second: Access)

  function Delivered(a: Access, want: nat): nat {
    if a.seekOk then Min(a.arrives, want) else 0
  }

  /** Every seek succeeds and every read is complete. */
  ghost predicate Healthy(card: Card, capacity: nat) {
    && (forall p :: card.pages(p).seekOk && card.pages(p).arrives >= PAGE)
    && card.first.seekOk && card.first.arrives >= capacity
    && card.second.seekOk && card.second.arrives >= capacity
  }

  /** Bytes held of page p, zero if it is not held. */
  ghost function HeldLen(slots: seq<PageSlot>, p: nat): nat {
    if Cached(slots, p) then
      var i :| 0 <= i < |slots| && slots[i].valid && slots[i].page == p;
      slots[i].len
    else 0
  }

  /** The first free slot, else the first of those stamped longest ago. */
  ghost predicate IsVictim(slots: seq<PageSlot>, i: nat) {
    && i < |slots|
    && if exists j :: 0 <= j < |slots| && !slots[j].valid then
         !slots[i].valid && forall j :: 0 <= j < i ==> slots[j].valid
       else
         && (forall j :: 0 <= j < |slots| ==> slots[i].stamp <= slots[j].stamp)
         && forall j :: 0 <= j < i ==> slots[i].stamp < slots[j].stamp
  }

  /** Bytes held of page p once it has been used. */
  ghost function PageAfter(size: nat, slots: seq<PageSlot>, p: nat, a: Access): nat {
    if Cached(slots, p) then HeldLen(slots, p) else Delivered(a, PageLen(size, p))
  }

  /** A page loaded now would take the slot of page q. */
  ghost predicate IsDisplaced(slots: seq<PageSlot>, q: nat) {
    exists i: nat :: IsVictim(slots, i) && slots[i].valid && slots[i].page == q
  }

  /** Bytes held of another page q then: none if page p had to be loaded into its slot. */
  ghost function OtherAfter(size: nat, slots: seq<PageSlot>, p: nat, a: Access, q: nat): nat {
    if PageAfter(size, slots, p, a) > 0 && !Cached(slots, p) && IsDisplaced(slots, q) then 0
    else HeldLen(slots, q)
  }

  /** Of chunk bytes from position off of a page, those within the held part. */
  function Within(held: nat, off: nat, chunk: nat): nat {
    if held <= off then 0 else Min(chunk, held - off)
  }

  /** What a small read gets from the pages. It touches one page or two. */
  ghost function RandomReach(size: nat, hasPages: bool, slots: seq<PageSlot>, offset: nat, want: nat, pages: nat -> Access): nat {
    var p, off := offset / PAGE, offset % PAGE;
    var chunk := Min(PAGE - off, want);
    var got := if hasPages then Within(PageAfter(size, slots, p, pages(p)), off, chunk) else Delivered(pages(p), chunk);
    if got < chunk || chunk == want then got
    else got + SecondReach(size, hasPages, slots, p, want - chunk, pages)
  }

  /** What it gets from the beginning of the second one. */
  ghost function SecondReach(size: nat, hasPages: bool, slots: seq<PageSlot>, p: nat, chunk: nat, pages: nat -> Access): nat {
    var left := OtherAfter(size, slots, p, pages(p), p + 1);
    if !hasPages then Delivered(pages(p + 1), chunk)
    else Within(if left > 0 then left else Delivered(pages(p + 1), PageLen(size, p + 1)), 0, chunk)
  }

  /** What a read gets by refilling the window, twice if need be. */
  function WindowReach(size: nat, capacity: nat, offset: nat, want: nat, first: Access, second: Access): nat
    requires capacity > 0 && offset < size
  {
    var start := WindowStart(capacity, offset);
    StartsBefore(capacity, offset);
    var end := start + Delivered(first, Min(capacity, size - start));
    if end == start || (offset >= end && offset + want > end) then 0
    else if offset + want <= end then want
    else
      var next := WindowStart(capacity, end);
      StartsBefore(capacity, end);
      var more := if end < size then Delivered(second, Min(capacity, size - next)) else 0;
      if more > 0 && offset + want <= next + more then want else end - offset
  }

  /** Where a window begins and how much of it is loaded. */
  datatype Window = Window(start: nat, len: nat)

  /** The window after an attempt to refill it at offset. */
  function Refilled(size: nat, capacity: nat, offset: nat, a: Access, was: Window): Window
    requires capacity > 0
  {
    var start := WindowStart(capacity, offset);
    if start >= size || !a.seekOk then was else Window(start, Delivered(a, Min(capacity, size - start)))
  }

  /** The window after a read by refilling: refilled once more only if the first one ends inside
      the request. */
  function WindowAfter(size: nat, capacity: nat, offset: nat, want: nat, first: Access, second: Access, was: Window): Window
    requires capacity > 0
  {
    var w := Refilled(size, capacity, offset, first, was);
    if first.seekOk && w.start <= offset < w.start + w.len < offset + want then Refilled(size, capacity, w.start + w.len, second, w)
    else w
  }

  lemma Halves(offset: nat, len: nat)
    requires len <= PAGE
    ensures var part := Min(PAGE - offset % PAGE, len);
            part < len ==> (offset + part) / PAGE == offset / PAGE + 1 && (offset + part) % PAGE == 0 && len - part <= PAGE
  {
    var p := offset / PAGE;
    assert offset == p * PAGE + offset % PAGE;
    assert (p + 1) * PAGE == p * PAGE + PAGE && (p + 1) * PAGE / PAGE == p + 1 && (p + 1) * PAGE % PAGE == 0;
  }

  lemma NothingAsked(size: nat, hasPages: bool, slots: seq<PageSlot>, offset: nat, pages: nat -> Access)
    ensures RandomReach(size, hasPages, slots, offset, 0, pages) == 0
  {
    hide PageAfter, SecondReach;
  }

  lemma FirstTurn(size: nat, hasPages: bool, slots: seq<PageSlot>, offset: nat, want: nat, pages: nat -> Access, got: nat)
    requires var p, off := offset / PAGE, offset % PAGE;
             var chunk := Min(PAGE - off, want);
             got == if hasPages then Within(PageAfter(size, slots, p, pages(p)), off, chunk) else Delivered(pages(p), chunk)
    ensures var part := Min(PAGE - offset % PAGE, want);
            RandomReach(size, hasPages, slots, offset, want, pages) ==
            if got < part || part == want then got
            else part + SecondReach(size, hasPages, slots, offset / PAGE, want - part, pages)
  {
    hide PageAfter, SecondReach;
  }

  lemma SecondTurn(size: nat, hasPages: bool, slots: seq<PageSlot>, held: seq<PageSlot>, p: nat, chunk: nat, pages: nat -> Access, got: nat)
    requires hasPages ==> HeldLen(held, p + 1) == OtherAfter(size, slots, p, pages(p), p + 1)
    requires hasPages ==> forall i :: 0 <= i < |held| && held[i].valid ==> held[i].len > 0
    requires got == if hasPages then Within(PageAfter(size, held, p + 1, pages(p + 1)), 0, chunk) else Delivered(pages(p + 1), chunk)
    ensures SecondReach(size, hasPages, slots, p, chunk, pages) == got
  {
    hide OtherAfter;
  }

  lemma StartsBefore(capacity: nat, offset: nat)
    requires capacity > 0
    ensures WindowStart(capacity, offset) <= offset < WindowStart(capacity, offset) + capacity
  {
    assert offset == offset / capacity * capacity + offset % capacity;
  }

  lemma HeldIs(slots: seq<PageSlot>, i: nat)
    requires DistinctPages(slots) && i < |slots| && slots[i].valid
    ensures Cached(slots, slots[i].page) && HeldLen(slots, slots[i].page) == slots[i].len
  {
  }

  lemma VictimIsOne(slots: seq<PageSlot>, i: nat, j: nat)
    requires IsVictim(slots, i) && IsVictim(slots, j)
    ensures i == j
  {
  }

  lemma DisplacedIff(slots: seq<PageSlot>, i: nat, q: nat)
    requires IsVictim(slots, i)
    ensures i < |slots| && (IsDisplaced(slots, q) <==> slots[i].valid && slots[i].page == q)
  {
    assert i < |slots|;
    hide IsVictim;
    if k: nat :| IsVictim(slots, k) && slots[k].valid && slots[k].page == q {
      VictimIsOne(slots, i, k);
    }
  }

  lemma HeldAfterHit(slots: seq<PageSlot>, i: nat, stamp: nat, q: nat)
    requires DistinctPages(slots) && i < |slots|
    ensures HeldLen(slots[i := slots[i].(stamp := stamp)], q) == HeldLen(slots, q)
  {
    var slots' := slots[i := slots[i].(stamp := stamp)];
    if Cached(slots, q) {
      var k :| 0 <= k < |slots| && slots[k].valid && slots[k].page == q;
      assert slots'[k].valid && slots'[k].page == q;
      HeldIs(slots, k);
      HeldIs(slots', k);
    } else {
      SameCached(slots, slots', q);
    }
  }

  lemma HeldAfterLoad(slots: seq<PageSlot>, i: nat, s: PageSlot, q: nat)
    requires DistinctPages(slots) && i < |slots| && s.valid && !Cached(slots, s.page)
    ensures var slots' := slots[i := s];
            && DistinctPages(slots')
            && HeldLen(slots', q) == if q == s.page then s.len
                                     else if slots[i].valid && slots[i].page == q then 0
                                     else HeldLen(slots, q)
  {
    var slots' := slots[i := s];
    assert forall k :: 0 <= k < |slots| && k != i ==> slots'[k] == slots[k];
    if Cached(slots', q) {
      var k :| 0 <= k < |slots'| && slots'[k].valid && slots'[k].page == q;
      HeldIs(slots', k);
      if k != i {
        HeldIs(slots, k);
      }
    } else {
      assert q != s.page by {
        assert slots'[i].valid;
      }
      if k :| 0 <= k < |slots| && slots[k].valid && slots[k].page == q {
        HeldIs(slots, k);
      }
    }
  }

  /** From a healthy card a read gets everything unless it ends past the second window. */
  lemma HealthyWindow(size: nat, capacity: nat, offset: nat, want: nat, card: Card)
    requires capacity > 0 && offset < size && offset + want <= size && Healthy(card, capacity)
    ensures var end := WindowStart(capacity, offset) + capacity;
            WindowReach(size, capacity, offset, want, card.first, card.second) ==
            if offset + want <= end + capacity then want else end - offset
  {
    NextWindow(capacity, offset);
    StartsBefore(capacity, offset);
    hide WindowStart;
  }

  /** When the pages give less than all of what a healthy card holds, but something: the first
      page was cut short within the request, or it served its part and the second page was. */
  lemma PagesFallShortIff(size: nat, slots: seq<PageSlot>, offset: nat, want: nat, card: Card, capacity: nat)
    requires 0 < want <= PAGE && offset + want <= size && Healthy(card, capacity) && DistinctPages(slots)
    requires forall i :: 0 <= i < |slots| && slots[i].valid ==> slots[i].len > 0
    ensures var p, off := offset / PAGE, offset % PAGE;
            0 < RandomReach(size, true, slots, offset, want, card.pages) < want <==>
              if off + want <= PAGE then Cached(slots, p) && off < HeldLen(slots, p) < off + want
              else if Cached(slots, p) && HeldLen(slots, p) < PAGE then off < HeldLen(slots, p)
              else 0 < OtherAfter(size, slots, p, card.pages(p), p + 1) < off + want - PAGE
    ensures RandomReach(size, true, slots, offset, want, card.pages) <= want
  {
    var p, off := offset / PAGE, offset % PAGE;
    assert offset == p * PAGE + off && (p + 1) * PAGE == p * PAGE + PAGE;
    assert card.pages(p).seekOk && card.pages(p + 1).seekOk;
    hide Cached, HeldLen, IsVictim, DistinctPages;
  }

  lemma FullPage(size: nat, slots: seq<PageSlot>, p: nat)
    requires PagesFull(size, slots)
    ensures HeldLen(slots, p) == if Cached(slots, p) then PageLen(size, p) else 0
  {
  }

  lemma OtherIsFull(size: nat, slots: seq<PageSlot>, p: nat, a: Access)
    requires PagesFull(size, slots)
    ensures OtherAfter(size, slots, p, a, p + 1) == 0 || OtherAfter(size, slots, p, a, p + 1) == PageLen(size, p + 1)
  {
    FullPage(size, slots, p + 1);
  }

  lemma WithoutPages(size: nat, slots: seq<PageSlot>, offset: nat, want: nat, card: Card, capacity: nat)
    requires 0 < want <= PAGE && Healthy(card, capacity)
    ensures RandomReach(size, false, slots, offset, want, card.pages) == want
  {
    var p := offset / PAGE;
    assert card.pages(p).seekOk && card.pages(p + 1).seekOk;
  }

  lemma NotHeld(slots: seq<PageSlot>, p: nat)
    requires !Cached(slots, p)
    ensures HeldLen(slots, p) == 0
  {
  }

  /** Loading page s.page into the victim's slot displaces what the specification says. */
  lemma LoadChanges(size: nat, slots: seq<PageSlot>, i: nat, s: PageSlot, a: Access)
    requires DistinctPages(slots) && IsVictim(slots, i) && s.valid && !Cached(slots, s.page)
    requires s.len == Delivered(a, PageLen(size, s.page)) > 0
    ensures HeldLen(slots[i := s], s.page) == s.len == PageAfter(size, slots, s.page, a)
    ensures forall q :: q != s.page ==> HeldLen(slots[i := s], q) == OtherAfter(size, slots, s.page, a, q)
  {
    hide HeldLen, Cached, DistinctPages, IsVictim, IsDisplaced, Delivered;
    DisplacedIff(slots, i, s.page);
    HeldAfterLoad(slots, i, s, s.page);
    forall q | q != s.page
      ensures HeldLen(slots[i := s], q) == OtherAfter(size, slots, s.page, a, q)
    {
      HeldAfterLoad(slots, i, s, q);
      DisplacedIff(slots, i, q);
    }
  }

  // ---- Opening ----

  /** Some size that halving can reach is granted. */
  ghost predicate SomeGrant(want: nat, grants: nat -> bool) {
    want >= MIN_CACHE_SIZE && (grants(want) || SomeGrant(want / 2, grants))
  }

  /** The buffer size for a file, zero if the file cannot be opened: halving never goes below
      32 KB, so a file smaller than that is refused even when memory is plentiful. */
  method ChooseCapacity(size: nat, grants: nat -> bool) returns (capacity: nat)
    ensures capacity > 0 ==> MIN_CACHE_SIZE <= capacity <= Min(size, MAX_CACHE_SIZE) && grants(capacity)
    ensures capacity > 0 <==> SomeGrant(Min(size, MAX_CACHE_SIZE), grants)
    ensures size < MIN_CACHE_SIZE ==> capacity == 0
    ensures size >= MIN_CACHE_SIZE && (forall n: nat :: grants(n)) ==> capacity == Min(size, MAX_CACHE_SIZE)
  {
    var allocSize := if size > MAX_CACHE_SIZE then MAX_CACHE_SIZE else size;
    var chosen: nat := allocSize;
    while chosen >= MIN_CACHE_SIZE
      invariant chosen <= allocSize
      invariant SomeGrant(allocSize, grants) <==> SomeGrant(chosen, grants)
      invariant chosen == allocSize || exists n: nat :: !grants(n)
    {
      if grants(chosen) {
        return chosen;
      }
      chosen := chosen / 2;
    }
    capacity := 0;
  }

  class SdReadCache {
    const file: seq<byte>
    const cacheBuf: array<byte>
    const randomBuf: array<byte>
    /** Whether the page buffer could be allocated. */
    const hasPages: bool
    const slots: array<PageSlot>
    var cacheStart: nat
    var cacheLen: nat
    var clock: nat
    /** The pages used, in order. */
    ghost var trace: seq<nat>

    ghost const repr: set<object>

    ghost predicate Shape() {
      && cacheBuf.Length > 0 && slots.Length == SLOTS
      && randomBuf != cacheBuf && (hasPages ==> randomBuf.Length == SLOTS * PAGE)
      && slots as object != cacheBuf && slots as object != randomBuf
      && repr == {this, cacheBuf, slots, randomBuf}
    }

    ghost predicate WindowShows()
      reads this`cacheStart, this`cacheLen, cacheBuf
    {
      Shows(file, cacheBuf[..], 0, cacheStart, cacheLen)
    }

    ghost predicate PagesOk()
      reads this`clock, this`trace, slots, randomBuf
    {
      && (hasPages ==> PagesShow(file, randomBuf[..], slots[..]))
      && DistinctPages(slots[..]) && StampsAreUses(slots[..], clock, trace)
    }

    ghost predicate Valid()
      reads this, cacheBuf, slots, randomBuf
    {
      Shape() && WindowShows() && PagesOk()
    }

    /** The state after the buffers were allocated and the window was primed; hasPages is false
        if the page buffer was refused. */
    constructor (file: seq<byte>, capacity: nat, hasPages: bool, a: Access)
      requires file != [] && capacity > 0
      ensures Valid() && fresh(repr) && this.file == file && cacheBuf.Length == capacity && this.hasPages == hasPages
      ensures cacheStart == 0 && cacheLen == Delivered(a, Min(capacity, |file|))
      ensures trace == [] && PagesFull(|file|, slots[..]) && forall p :: !Cached(slots[..], p)
    {
      this.file := file;
      var c := new byte[capacity](_ => 0);
      var s := new PageSlot[SLOTS](_ => PageSlot(0, 0, 0, false));
      var r := new byte[if hasPages then SLOTS * PAGE else 0](_ => 0);
      this.hasPages := hasPages;
      cacheBuf, slots, randomBuf := c, s, r;
      cacheStart, cacheLen, clock, trace := 0, 0, 0, [];
      repr := {this, c, s, r};
      new;
      if hasPages {
        assert forall i :: 0 <= i < SLOTS ==> SlotShows(file, randomBuf[..], slots[..], i);
      }
      var _ := Refill(0, a);
    }

    /** fread at the position just sought: any prefix of what was asked for. */
    method FRead(dst: array<byte>, at: nat, pos: nat, want: nat, a: Access) returns (got: nat)
      requires at + want <= dst.Length && pos + want <= |file|
      modifies dst
      ensures got == Min(a.arrives, want) && Shows(file, dst[..], at, pos, got)
      ensures forall k :: 0 <= k < dst.Length && !(at <= k < at + got) ==> dst[k] == old(dst[k])
    {
      got := Min(a.arrives, want);
      for k := 0 to got
        invariant forall m :: 0 <= m < dst.Length ==> dst[m] == if at <= m < at + k then file[pos + m - at] else old(dst[m])
      {
        dst[at + k] := file[pos + k];
      }
    }

    method MemCpy(dst: array<byte>, at: nat, src: array<byte>, from: nat, n: nat)
      requires dst != src && at + n <= dst.Length && from + n <= src.Length
      modifies dst
      ensures forall k :: 0 <= k < dst.Length ==> dst[k] == if at <= k < at + n then src[from + k - at] else old(dst[k])
    {
      for k := 0 to n
        invariant forall m :: 0 <= m < dst.Length ==> dst[m] == if at <= m < at + k then src[from + m - at] else old(dst[m])
      {
        dst[at + k] := src[from + k];
      }
    }

    /** Loads the window that contains offset, as far as the card delivers it. */
    method Refill(offset: nat, a: Access) returns (ok: bool)
      requires Shape() && WindowShows()
      modifies this`cacheStart, this`cacheLen, cacheBuf
      ensures WindowShows()
      ensures var start := WindowStart(cacheBuf.Length, offset);
              if start >= |file| || !a.seekOk then !ok && cacheStart == old(cacheStart) && cacheLen == old(cacheLen)
              else
                && cacheStart == start <= offset < start + cacheBuf.Length
                && cacheLen == Delivered(a, Min(cacheBuf.Length, |file| - start)) && ok == (cacheLen > 0)
    {
      StartsBefore(cacheBuf.Length, offset);
      var aligned := offset / cacheBuf.Length * cacheBuf.Length;
      if aligned >= |file| {
        return false;
      }
      if !a.seekOk {
        return false;
      }
      var want := cacheBuf.Length;
      if aligned + want > |file| {
        want := |file| - aligned;
      }
      var got := FRead(cacheBuf, 0, aligned, want, a);
      cacheStart, cacheLen := aligned, got;
      ok := got > 0;
    }

    method FindRandomPage(p: nat) returns (slot: int)
      requires slots.Length == SLOTS
      ensures slot < SLOTS
      ensures if slot < 0 then !Cached(slots[..], p) else slots[slot].valid && slots[slot].page == p
    {
      for i := 0 to SLOTS
        invariant forall k :: 0 <= k < i ==> !(slots[k].valid && slots[k].page == p)
      {
        if slots[i].valid && slots[i].page == p {
          return i;
        }
      }
      slot := -1;
    }

    /** A free slot, else the one stamped longest ago. */
    method ChooseRandomSlot() returns (slot: int)
      requires slots.Length == SLOTS
      ensures 0 <= slot < SLOTS && IsVictim(slots[..], slot)
      ensures slots[slot].valid ==> forall j :: 0 <= j < SLOTS ==> slots[j].valid && slots[slot].stamp <= slots[j].stamp
    {
      slot := -1;
      var oldest := 0;
      for i := 0 to SLOTS
        invariant -1 <= slot < i && (i > 0 ==> slot >= 0) && (slot >= 0 ==> oldest == slots[slot].stamp)
        invariant forall j :: 0 <= j < i ==> slots[j].valid && oldest <= slots[j].stamp
        invariant forall j :: 0 <= j < slot ==> oldest < slots[j].stamp
      {
        if !slots[i].valid {
          assert !slots[..][i].valid;
          return i;
        }
        if slot < 0 || slots[i].stamp < oldest {
          slot, oldest := i, slots[i].stamp;
        }
      }
    }

    /** Reads page p into a slot; an incomplete read leaves a short page there. */
    method LoadRandomPage(p: nat, slot: nat, a: Access) returns (ok: bool)
      requires Shape() && PagesOk() && hasPages && slot < SLOTS && !Cached(slots[..], p)
      requires slots[slot].valid ==> forall j :: 0 <= j < SLOTS ==> slots[j].valid && slots[slot].stamp <= slots[j].stamp
      modifies this`clock, this`trace, slots, randomBuf
      ensures PagesOk()
      ensures ok <==> Delivered(a, PageLen(|file|, p)) > 0
      ensures ok ==> trace == old(trace) + [p] &&
                     slots[..] == old(slots[..])[slot := PageSlot(p, Delivered(a, PageLen(|file|, p)), clock, true)]
      ensures !ok ==> slots[..] == old(slots[..]) && trace == old(trace)
      ensures ok && Delivered(a, PageLen(|file|, p)) == PageLen(|file|, p) && old(PagesFull(|file|, slots[..])) ==> PagesFull(|file|, slots[..])
    {
      hide StampsAreUses, Shows, SlotShows;
      var start := p * PAGE;
      if start >= |file| {
        return false;
      }
      if !a.seekOk {
        return false;
      }
      var want := PAGE;
      if start + want > |file| {
        want := |file| - start;
      }
      ghost var pages, was := randomBuf[..], slots[..];
      var got := FRead(randomBuf, slot * PAGE, start, want, a);
      if got == 0 {
        assert randomBuf[..] == pages;
        return false;
      }
      LoadKeepsUses(was, clock, trace, slot, p, got);
      LoadKeepsPages(file, pages, randomBuf[..], was, slot, PageSlot(p, got, (clock + 1) % WRAP, true));
      clock := (clock + 1) % WRAP;
      slots[slot] := PageSlot(p, got, clock, true);
      trace := trace + [p];
      assert slots[..] == was[slot := PageSlot(p, got, clock, true)];
      ok := true;
    }

    /** Brings page p into a slot, if it is not there, and stamps it. A page that was cut short
        stays as it is: it is not loaded again while it is held. */
    method UsePage(p: nat, a: Access) returns (slot: int)
      requires Shape() && PagesOk() && hasPages
      modifies this`clock, this`trace, slots, randomBuf
      ensures PagesOk() && slot < SLOTS
      ensures slot >= 0 <==> PageAfter(|file|, old(slots[..]), p, a) > 0
      ensures slot >= 0 ==>
                && slots[slot].valid && slots[slot].page == p && trace == old(trace) + [p]
                && slots[slot].len == PageAfter(|file|, old(slots[..]), p, a)
      ensures slot < 0 ==> slots[..] == old(slots[..]) && trace == old(trace)
      ensures HeldLen(slots[..], p) == PageAfter(|file|, old(slots[..]), p, a)
      ensures forall q :: q != p ==> HeldLen(slots[..], q) == OtherAfter(|file|, old(slots[..]), p, a, q)
      ensures a.seekOk && a.arrives >= PAGE && old(PagesFull(|file|, slots[..])) ==> PagesFull(|file|, slots[..])
    {
      hide StampsAreUses, Shows, SlotShows, Cached, HeldLen, IsVictim, PagesFull;
      ghost var was := slots[..];
      slot := FindRandomPage(p);
      if slot < 0 {
        var victim := ChooseRandomSlot();
        var ok := LoadRandomPage(p, victim, a);
        NotHeld(was, p);
        if ok {
          slot := victim;
          LoadChanges(|file|, was, victim, slots[slot], a);
        }
      } else {
        SlotIsRight(slot);
        HeldIs(was, slot);
        HitKeepsUses(was, clock, trace, slot);
        HitKeepsPages(file, randomBuf[..], was, slot, (clock + 1) % WRAP);
        clock := (clock + 1) % WRAP;
        slots[slot] := slots[slot].(stamp := clock);
        trace := trace + [p];
        assert slots[..] == was[slot := was[slot].(stamp := clock)];
        forall q
          ensures HeldLen(slots[..], q) == HeldLen(was, q)
        {
          HeldAfterHit(was, slot, clock, q);
        }
      }
    }

    lemma SlotIsRight(i: nat)
      requires PagesOk() && hasPages && i < SLOTS
      ensures slots.Length == SLOTS && SlotShows(file, randomBuf[..], slots[..], i) && DistinctPages(slots[..])
      ensures slots[i].valid ==> slots[i].len > 0
    {
    }

    /** Copies what page p holds of file[cur..cur + chunk] to buf[at..]. */
    method CopyFromPage(buf: array<byte>, at: nat, cur: nat, chunk: nat, a: Access) returns (take: nat)
      requires Valid() && hasPages && buf !in repr
      requires chunk <= PAGE - cur % PAGE && cur + chunk <= |file| && at + chunk <= buf.Length && chunk > 0
      modifies this`clock, this`trace, slots, randomBuf, buf
      ensures Valid() && Shows(file, buf[..], at, cur, take)
      ensures take == Within(PageAfter(|file|, old(slots[..]), cur / PAGE, a), cur % PAGE, chunk)
      ensures HeldLen(slots[..], cur / PAGE) == PageAfter(|file|, old(slots[..]), cur / PAGE, a)
      ensures forall q :: q != cur / PAGE ==> HeldLen(slots[..], q) == OtherAfter(|file|, old(slots[..]), cur / PAGE, a, q)
      ensures forall k :: 0 <= k < buf.Length && !(at <= k < at + take) ==> buf[k] == old(buf[k])
      ensures a.seekOk && a.arrives >= PAGE && old(PagesFull(|file|, slots[..])) ==> PagesFull(|file|, slots[..])
    {
      hide PagesOk, PagesFull, HeldLen, OtherAfter, PageAfter;
      var p, off := cur / PAGE, cur % PAGE;
      assert cur == p * PAGE + off;
      var slot := UsePage(p, a);
      if slot < 0 {
        return 0;
      }
      SlotIsRight(slot);
      var avail := 0;
      if slots[slot].len > off {
        avail := slots[slot].len - off;
      }
      if avail == 0 {
        return 0;
      }
      take := if avail < chunk then avail else chunk;
      ghost var pages := randomBuf[..];
      MemCpy(buf, at, randomBuf, slot * PAGE + off, take);
      assert randomBuf[..] == pages;
      forall k | at <= k < at + take
        ensures buf[k] == file[cur + k - at]
      {
        assert pages[slot * PAGE + off + k - at] == file[p * PAGE + off + k - at];
      }
    }

    /** One turn of the loop below: what one page gives, or the card itself without pages. */
    method CopyChunk(buf: array<byte>, at: nat, cur: nat, chunk: nat, a: Access) returns (got: nat)
      requires Valid() && buf !in repr
      requires chunk <= PAGE - cur % PAGE && cur + chunk <= |file| && at + chunk <= buf.Length && chunk > 0
      modifies this`clock, this`trace, slots, randomBuf, buf
      ensures Valid() && got <= chunk && Shows(file, buf[..], at, cur, got)
      ensures got == if hasPages then Within(PageAfter(|file|, old(slots[..]), cur / PAGE, a), cur % PAGE, chunk) else Delivered(a, chunk)
      ensures hasPages ==>
                && HeldLen(slots[..], cur / PAGE) == PageAfter(|file|, old(slots[..]), cur / PAGE, a)
                && forall q :: q != cur / PAGE ==> HeldLen(slots[..], q) == OtherAfter(|file|, old(slots[..]), cur / PAGE, a, q)
      ensures forall k :: 0 <= k < buf.Length && !(at <= k < at + got) ==> buf[k] == old(buf[k])
      ensures a.seekOk && a.arrives >= PAGE && old(PagesFull(|file|, slots[..])) ==> PagesFull(|file|, slots[..])
    {
      hide PagesOk, PagesFull, HeldLen, OtherAfter, PageAfter;
      if !hasPages {
        if !a.seekOk {
          return 0;
        }
        got := FRead(buf, at, cur, chunk, a);
      } else {
        got := CopyFromPage(buf, at, cur, chunk, a);
      }
    }

    /** Serves a small read page by page; stops at the first byte it cannot get. */
    method ReadViaRandomPages(buf: array<byte>, offset: nat, len: nat, pages: nat -> Access) returns (copied: nat)
      requires Valid() && buf !in repr && len <= buf.Length && offset + len <= |file| && len <= PAGE
      modifies this`clock, this`trace, slots, randomBuf, buf
      ensures Valid() && copied <= len && Shows(file, buf[..], 0, offset, copied)
      ensures copied == RandomReach(|file|, hasPages, old(slots[..]), offset, len, pages)
      ensures hasPages && 0 < len && offset % PAGE + len <= PAGE ==>
                HeldLen(slots[..], offset / PAGE) == PageAfter(|file|, old(slots[..]), offset / PAGE, pages(offset / PAGE))
      ensures forall k :: copied <= k < buf.Length ==> buf[k] == old(buf[k])
      ensures (forall p :: pages(p).seekOk && pages(p).arrives >= PAGE) && old(PagesFull(|file|, slots[..])) ==> PagesFull(|file|, slots[..])
    {
      hide PagesOk, PagesFull, HeldLen, OtherAfter, PageAfter, RandomReach, SecondReach, Shows, Within, Delivered;
      copied := 0;
      NothingShown(file, buf[..], offset);
      ghost var was := slots[..];
      ghost var p, part := offset / PAGE, Min(PAGE - offset % PAGE, len);
      Halves(offset, len);
      NothingAsked(|file|, hasPages, was, offset, pages);
      while copied < len
        invariant Valid() && copied <= len && Shows(file, buf[..], 0, offset, copied)
        invariant forall k :: copied <= k < buf.Length ==> buf[k] == old(buf[k])
        invariant (forall q :: pages(q).seekOk && pages(q).arrives >= PAGE) && old(PagesFull(|file|, slots[..])) ==> PagesFull(|file|, slots[..])
        invariant copied == 0 || copied == part || copied == len
        invariant copied == 0 ==> slots[..] == was
        invariant copied == len ==> copied == RandomReach(|file|, hasPages, was, offset, len, pages)
        invariant 0 < copied < len ==>
                    && RandomReach(|file|, hasPages, was, offset, len, pages) == part + SecondReach(|file|, hasPages, was, p, len - part, pages)
                    && (hasPages ==> HeldLen(slots[..], p + 1) == OtherAfter(|file|, was, p, pages(p), p + 1))
        invariant 0 < copied && part == len && hasPages ==> HeldLen(slots[..], p) == PageAfter(|file|, was, p, pages(p))
        decreases len - copied
      {
        var cur := offset + copied;
        var chunk := PAGE - cur % PAGE;
        if chunk > len - copied {
          chunk := len - copied;
        }
        ghost var before, held := buf[..], slots[..];
        if hasPages {
          PagesHold();
        }
        var got := CopyChunk(buf, copied, cur, chunk, pages(cur / PAGE));
        ShowsExtended(file, before, buf[..], copied, offset, got);
        if copied == 0 {
          FirstTurn(|file|, hasPages, was, offset, len, pages, got);
        } else {
          SecondTurn(|file|, hasPages, was, held, p, chunk, pages, got);
        }
        copied := copied + got;
        if got < chunk {
          return;
        }
      }
    }

    /** Copies what the window holds of file[offset..offset + len] to buf[at..]. */
    method CopyFromWindow(buf: array<byte>, at: nat, offset: nat, len: nat)
      requires Shape() && WindowShows() && buf != cacheBuf && at + len <= buf.Length
      requires cacheStart <= offset && offset + len <= cacheStart + cacheLen
      modifies buf
      ensures Shows(file, buf[..], at, offset, len)
      ensures forall k :: 0 <= k < buf.Length && !(at <= k < at + len) ==> buf[k] == old(buf[k])
    {
      ghost var window := cacheBuf[..];
      MemCpy(buf, at, cacheBuf, offset - cacheStart, len);
      forall k | at <= k < at + len
        ensures buf[k] == file[offset + k - at]
      {
        assert window[offset - cacheStart + k - at] == file[offset + k - at];
      }
    }

    /** How many bytes read() gets, given what the window and the pages hold and what the card
        delivers. */
    ghost function Reach(offset: nat, len: nat, card: Card): nat
      requires Shape()
      reads this, cacheBuf, slots
    {
      if offset >= |file| then 0
      else
        var want := Min(len, |file| - offset);
        if offset >= cacheStart && offset + want <= cacheStart + cacheLen then want
        else
          var got := if cacheLen > 0 && want <= PAGE then RandomReach(|file|, hasPages, slots[..], offset, want, card.pages) else 0;
          if got > 0 then got else WindowReach(|file|, cacheBuf.Length, offset, want, card.first, card.second)
    }

    /** Reads up to len bytes at offset. Whatever the card delivers, every byte reported is the
        file's, no other byte of buf changes, and the number reported is the one specified. A
        read served by the pages leaves the window alone. */
    method Read(buf: array<byte>, offset: nat, len: nat, card: Card) returns (n: nat)
      requires Valid() && buf !in repr && len <= buf.Length
      modifies repr, buf
      ensures Valid() && n == old(Reach(offset, len, card)) <= len
      ensures offset < |file| ==> Shows(file, buf[..], 0, offset, n)
      ensures forall k :: n <= k < buf.Length ==> buf[k] == old(buf[k])
      ensures Healthy(card, cacheBuf.Length) && old(PagesFull(|file|, slots[..])) ==> PagesFull(|file|, slots[..])
      ensures var want := if offset < |file| then Min(len, |file| - offset) else 0;
              var hit := offset >= old(cacheStart) && offset + want <= old(cacheStart + cacheLen);
              var got := old(if cacheLen > 0 && want <= PAGE then RandomReach(|file|, hasPages, slots[..], offset, want, card.pages) else 0);
              && (offset < |file| && !hit && got == 0 ==>
                    Window(cacheStart, cacheLen) ==
                    WindowAfter(|file|, cacheBuf.Length, offset, want, card.first, card.second, Window(old(cacheStart), old(cacheLen))))
              && (offset >= |file| || hit || got > 0 ==>
                    cacheStart == old(cacheStart) && cacheLen == old(cacheLen) && cacheBuf[..] == old(cacheBuf[..]))
              && (0 < want && offset % PAGE + want <= PAGE && !hit && old(cacheLen) > 0 && hasPages ==>
                    HeldLen(slots[..], offset / PAGE) == PageAfter(|file|, old(slots[..]), offset / PAGE, card.pages(offset / PAGE)))
    {
      hide PagesOk, PagesFull, RandomReach, WindowReach, HeldLen, PageAfter, WindowAfter;
      if offset >= |file| {
        return 0;
      }
      var want := if offset + len > |file| then |file| - offset else len;
      if offset >= cacheStart && offset + want <= cacheStart + cacheLen {
        CopyFromWindow(buf, 0, offset, want);
        return want;
      }
      if cacheLen > 0 && want <= PAGE {
        var got := ReadViaRandomPages(buf, offset, want, card.pages);
        if got > 0 {
          return got;
        }
      }
      ghost var pages := slots[..];
      n := ReadThroughWindow(buf, offset, want, card.first, card.second);
      assert slots[..] == pages;
    }

    /** The slow path: refill at offset, and once more when the request ends past the window. */
    method ReadThroughWindow(buf: array<byte>, offset: nat, len: nat, first: Access, second: Access) returns (n: nat)
      requires Valid() && buf !in repr && len <= buf.Length && offset < |file| && offset + len <= |file|
      modifies this`cacheStart, this`cacheLen, cacheBuf, buf
      ensures Valid() && n <= len && Shows(file, buf[..], 0, offset, n)
      ensures n == WindowReach(|file|, cacheBuf.Length, offset, len, first, second)
      ensures Window(cacheStart, cacheLen) ==
              WindowAfter(|file|, cacheBuf.Length, offset, len, first, second, Window(old(cacheStart), old(cacheLen)))
      ensures forall k :: n <= k < buf.Length ==> buf[k] == old(buf[k])
    {
      hide PagesOk, WindowStart;
      StartsBefore(cacheBuf.Length, offset);
      var ok := Refill(offset, first);
      if !ok {
        return 0;
      }
      if offset >= cacheStart && offset + len <= cacheStart + cacheLen {
        CopyFromWindow(buf, 0, offset, len);
        return len;
      }
      if offset < cacheStart || offset >= cacheStart + cacheLen {
        return 0;
      }
      var part := cacheStart + cacheLen - offset;
      if part > len {
        part := len;
      }
      CopyFromWindow(buf, 0, offset, part);
      ghost var before := buf[..];
      StartsBefore(cacheBuf.Length, offset + part);
      ok := Refill(offset + part, second);
      if !ok {
        return part;
      }
      var secondOff, secondLen := offset + part, len - part;
      if secondOff >= cacheStart && secondOff + secondLen <= cacheStart + cacheLen {
        CopyFromWindow(buf, part, secondOff, secondLen);
        ShowsExtended(file, before, buf[..], part, offset, secondLen);
        return part + secondLen;
      }
      n := part;
    }

    /** When a small read from a healthy card comes back short: exactly when the window is loaded
        but misses the request, and a page held was cut short inside it. A page cut short before
        the request does no harm, because then the window serves the read. */
    lemma ShortIff(offset: nat, len: nat, card: Card)
      requires Valid() && PAGE <= cacheBuf.Length && Healthy(card, cacheBuf.Length)
      requires offset < |file| && 0 < Min(len, |file| - offset) <= PAGE
      ensures var want := Min(len, |file| - offset);
              var p, off := offset / PAGE, offset % PAGE;
              Reach(offset, len, card) < want <==>
                && hasPages && cacheLen > 0 && !(offset >= cacheStart && offset + want <= cacheStart + cacheLen)
                && if off + want <= PAGE then Cached(slots[..], p) && off < HeldLen(slots[..], p) < off + want
                   else if Cached(slots[..], p) && HeldLen(slots[..], p) < PAGE then off < HeldLen(slots[..], p)
                   else 0 < OtherAfter(|file|, slots[..], p, card.pages(p), p + 1) < off + want - PAGE
    {
      hide RandomReach, WindowReach, HeldLen, OtherAfter, Cached;
      var want := Min(len, |file| - offset);
      HealthyWindow(|file|, cacheBuf.Length, offset, want, card);
      StartsBefore(cacheBuf.Length, offset);
      PagesHold();
      if hasPages {
        PagesFallShortIff(|file|, slots[..], offset, want, card, cacheBuf.Length);
      } else {
        WithoutPages(|file|, slots[..], offset, want, card, cacheBuf.Length);
      }
    }

    /** With no page cut short, every read of at most the window from a healthy card is complete. */
    lemma CompleteWhenFull(offset: nat, len: nat, card: Card)
      requires Valid() && PAGE <= cacheBuf.Length && Healthy(card, cacheBuf.Length) && PagesFull(|file|, slots[..])
      requires offset < |file| && Min(len, |file| - offset) <= cacheBuf.Length
      ensures Reach(offset, len, card) == Min(len, |file| - offset)
    {
      hide RandomReach, WindowReach, HeldLen, Cached, OtherAfter;
      var want := Min(len, |file| - offset);
      HealthyWindow(|file|, cacheBuf.Length, offset, want, card);
      StartsBefore(cacheBuf.Length, offset);
      if want == 0 {
        NothingAsked(|file|, hasPages, slots[..], offset, card.pages);
      } else if want <= PAGE {
        var p := offset / PAGE;
        assert offset == p * PAGE + offset % PAGE && (p + 1) * PAGE == p * PAGE + PAGE;
        PagesHold();
        FullPage(|file|, slots[..], p);
        FullPage(|file|, slots[..], p + 1);
        OtherIsFull(|file|, slots[..], p, card.pages(p));
        ShortIff(offset, len, card);
        ReachFits(offset, len, card);
      }
    }

    lemma ReachFits(offset: nat, len: nat, card: Card)
      requires Valid() && PAGE <= cacheBuf.Length && Healthy(card, cacheBuf.Length)
      requires offset < |file| && 0 < Min(len, |file| - offset) <= PAGE
      ensures Reach(offset, len, card) <= Min(len, |file| - offset)
    {
      hide RandomReach, WindowReach, HeldLen, OtherAfter, Cached;
      var want := Min(len, |file| - offset);
      HealthyWindow(|file|, cacheBuf.Length, offset, want, card);
      StartsBefore(cacheBuf.Length, offset);
      PagesHold();
      if hasPages {
        PagesFallShortIff(|file|, slots[..], offset, want, card, cacheBuf.Length);
      } else {
        WithoutPages(|file|, slots[..], offset, want, card, cacheBuf.Length);
      }
    }

    lemma PagesHold()
      requires Valid()
      ensures DistinctPages(slots[..])
      ensures hasPages ==> forall i :: 0 <= i < |slots[..]| && slots[..][i].valid ==> slots[..][i].len > 0
    {
      if hasPages {
        forall i | 0 <= i < |slots[..]| && slots[..][i].valid
          ensures slots[..][i].len > 0
        {
          assert SlotShows(file, randomBuf[..], slots[..], i);
        }
      }
    }
  }

  /** A run with a short read from a healthy card: page 9 was cut short at ten bytes by an
      earlier read, and is not loaded again although the card would now deliver all of it. */
  method ShortPageStays() returns (cut: nat, healthy: nat)
    ensures cut == healthy == 10
  {
    var file: seq<byte> := seq(40000, _ => 0);
    var all := Access(true, MIN_CACHE_SIZE);
    var cache := new SdReadCache(file, MIN_CACHE_SIZE, true, all);
    var buf := new byte[100](_ => 0);
    var faulty, sound := Card(_ => Access(true, 10), all, all), Card(_ => all, all, all);
    assert Healthy(sound, MIN_CACHE_SIZE) && 9 * PAGE / PAGE == 9;
    cut := cache.Read(buf, 9 * PAGE, 100, faulty);
    healthy := cache.Read(buf, 9 * PAGE, 100, sound);
  }

  /** The end of a full window is the start of the next. */
  lemma NextWindow(capacity: nat, offset: nat)
    requires capacity > 0
    ensures var end := WindowStart(capacity, offset) + capacity;
            WindowStart(capacity, end) == end
  {
    var q := offset / capacity;
    Layout.ChunksDisjoint(capacity, (q + 1) * capacity, q + 1);
    assert (q + 1) * capacity == q * capacity + capacity;
  }

  lemma NothingShown(file: seq<byte>, buf: seq<byte>, offset: nat)
    requires offset <= |file|
    ensures Shows(file, buf, 0, offset, 0)
  {
  }

  lemma ShowsExtended(file: seq<byte>, before: seq<byte>, after: seq<byte>, copied: nat, offset: nat, got: nat)
    requires Shows(file, before, 0, offset, copied) && Shows(file, after, copied, offset + copied, got)
    requires |after| == |before| && forall k :: 0 <= k < copied ==> after[k] == before[k]
    ensures Shows(file, after, 0, offset, copied + got)
  {
  }
}
