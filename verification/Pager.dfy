/** The pager: a file of 4096-byte pages, its header on page 0, and a free list threaded through the
    first four bytes of the free pages. */
module Pager {
  import opened Common
  import opened Paging
  import opened Bytes

  const RESERVED: nat := 4
  const NO_FREE: nat := 0xFFFF_FFFF
  const MAGIC: seq<byte> := [84, 49, 78, 89, 68, 66, 48, 49]    // T1NYDB01

  datatype Header = Header(numPages: nat, freeHead: nat, lastLsn: nat)

  // ----- the header page

  function HeaderBytes(h: Header): (d: seq<byte>)
    ensures |d| == 24
  {
    MAGIC + LE(1, 2) + LE(PAGE_SIZE, 2) + LE(h.numPages, 4) + LE(h.freeHead, 4) + LE(h.lastLsn, 4)
  }

  /** `_write_header_unlocked` and `_protect_header`: only the 24 header bytes change. */
  function Stamp(p: Page, h: Header): Page {
    Splice(p, 0, HeaderBytes(h))
  }

  /** `_read_header`; None where it raises. */
  function ReadHeader(p: Page): Option<Header> {
    if p[0..8] != MAGIC || FromLE(p[8..10]) != 1 || FromLE(p[10..12]) != PAGE_SIZE then None
    else Some(Header(FromLE(p[12..16]), FromLE(p[16..20]), FromLE(p[20..24])))
  }

  predicate Packable(h: Header) {
    h.numPages < U32 && h.freeHead < U32 && h.lastLsn < U32
  }

  lemma HeaderRoundTrip(p: Page, h: Header)
    requires Packable(h)
    ensures ReadHeader(Stamp(p, h)) == Some(h) && Stamp(p, h)[24..] == p[24..]
  {
    var q, d := Stamp(p, h), HeaderBytes(h);
    assert q[0..24] == d && q[24..] == p[24..] by { assert q[0..0 + |d|] == d; }
    Fields(d, h);
    assert q[0..8] == d[0..8] && q[8..10] == d[8..10] && q[10..12] == d[10..12];
    assert q[12..16] == d[12..16] && q[16..20] == d[16..20] && q[20..24] == d[20..24];
  }

  /** A page has a header exactly when its first 24 bytes are that header's. */
  lemma HeaderExact(p: Page, h: Header)
    ensures ReadHeader(p) == Some(h) <==> Packable(h) && p[..24] == HeaderBytes(h)
  {
    if Packable(h) && p[..24] == HeaderBytes(h) {
      HeaderIsRead(p, h);
    }
    if ReadHeader(p) == Some(h) {
      ReadIsHeader(p, h);
    }
  }

  lemma HeaderIsRead(p: Page, h: Header)
    requires Packable(h) && p[..24] == HeaderBytes(h)
    ensures ReadHeader(p) == Some(h)
  {
    Fields(p[..24], h);
    hide HeaderBytes, FromLE;
    var d := p[..24];
    assert p[0..8] == d[0..8] && p[8..10] == d[8..10] && p[10..12] == d[10..12];
    assert p[12..16] == d[12..16] && p[16..20] == d[16..20] && p[20..24] == d[20..24];
  }

  lemma ReadIsHeader(p: Page, h: Header)
    requires ReadHeader(p) == Some(h)
    ensures Packable(h) && p[..24] == HeaderBytes(h)
  {
    Pow256Values();
    LEInverts(p[8..10]);
    LEInverts(p[10..12]);
    LEInverts(p[12..16]);
    LEInverts(p[16..20]);
    LEInverts(p[20..24]);
    hide LE, FromLE;
    assert p[..24] == p[0..8] + p[8..10] + p[10..12] + p[12..16] + p[16..20] + p[20..24];
  }

  lemma Fields(d: seq<byte>, h: Header)
    requires d == HeaderBytes(h) && Packable(h)
    ensures d[0..8] == MAGIC && FromLE(d[8..10]) == 1 && FromLE(d[10..12]) == PAGE_SIZE
    ensures FromLE(d[12..16]) == h.numPages && FromLE(d[16..20]) == h.freeHead && FromLE(d[20..24]) == h.lastLsn
  {
    assert d[8..10] == LE(1, 2) && d[10..12] == LE(PAGE_SIZE, 2);
    assert d[12..16] == LE(h.numPages, 4) && d[16..20] == LE(h.freeHead, 4) && d[20..24] == LE(h.lastLsn, 4);
    hide HeaderBytes;
    Pow256Values();
    FromLEInverts(1, 2);
    FromLEInverts(PAGE_SIZE, 2);
    FromLEInverts(h.numPages, 4);
    FromLEInverts(h.freeHead, 4);
    FromLEInverts(h.lastLsn, 4);
  }

  // ----- the free list

  function NextFree(p: Page): nat {
    FromLE(p[0..4])
  }

  function Link(p: Page, next: nat): Page {
    Splice(p, 0, LE(next, 4))
  }

  lemma LinkReads(p: Page, next: nat)
    requires next < U32
    ensures NextFree(Link(p, next)) == next
  {
    assert Link(p, next)[0..4] == LE(next, 4) by { assert Link(p, next)[0..0 + 4] == LE(next, 4); }
    Pow256Values();
    FromLEInverts(next, 4);
  }

  /** Following the list from `head` visits exactly `free` and stops. */
  ghost predicate Chain(file: seq<Page>, head: nat, free: seq<nat>)
    decreases free
  {
    if free == [] then head == NO_FREE
    else head == free[0] && head != NO_FREE && head < |file| && Chain(file, NextFree(file[head]), free[1..])
  }

  /** Pages off the list do not matter to it. */
  lemma {:induction false} ChainFrame(file: seq<Page>, file': seq<Page>, head: nat, free: seq<nat>)
    requires Chain(file, head, free) && |file| <= |file'|
    requires forall f | f in free && f < |file| :: file'[f] == file[f]
    ensures Chain(file', head, free)
    decreases free
  {
    hide NextFree;
    if free != [] {
      ChainFrame(file, file', NextFree(file[head]), free[1..]);
    }
  }

  lemma {:induction false} ChainAt(file: seq<Page>, head: nat, free: seq<nat>, k: nat)
    requires Chain(file, head, free) && k < |free|
    ensures free[k] < |file| && Chain(file, free[k], free[k..])
    decreases free
  {
    hide NextFree;
    if k > 0 {
      ChainAt(file, NextFree(file[head]), free[1..], k - 1);
      assert free[1..][k - 1..] == free[k..];
    } else {
      assert free[0..] == free;
    }
  }

  function Succ(loop: seq<nat>, i: nat): nat
    requires i < |loop|
  {
    if i + 1 < |loop| then loop[i + 1] else loop[0]
  }

  ghost predicate Loop(file: seq<Page>, loop: seq<nat>) {
    && loop != []
    && forall i :: 0 <= i < |loop| ==>
         loop[i] < |file| && loop[i] != NO_FREE && NextFree(file[loop[i]]) == Succ(loop, i)
  }

  /** A list that comes back to a page never ends: after a double free there is no finite list. */
  lemma {:induction false} LoopNeverEnds(file: seq<Page>, loop: seq<nat>, c: seq<nat>)
    requires Loop(file, loop) && Chain(file, loop[0], c)
    ensures false
    decreases |c|
  {
    hide NextFree;
    var d := Around(file, loop, c, 0);
    LoopNeverEnds(file, loop, d);
  }

  lemma {:induction false} Around(file: seq<Page>, loop: seq<nat>, c: seq<nat>, i: nat) returns (d: seq<nat>)
    requires Loop(file, loop) && i < |loop| && Chain(file, loop[i], c)
    ensures Chain(file, loop[0], d) && |d| < |c|
    decreases |loop| - i
  {
    hide NextFree;
    assert NextFree(file[loop[i]]) == Succ(loop, i);
    d := c[1..];
    if i + 1 < |loop| {
      d := Around(file, loop, c[1..], i + 1);
    }
  }

  // ----- the pager

  class PagerFile {
    var file: seq<Page>
    var numPages: nat
    var freeHead: nat
    var lastLsn: nat
    ghost var free: seq<nat>
    ghost var held: set<nat>

    /** The header on disk says what the fields say, the list is finite, duplicate-free and within the
        data pages, and every data page is either free or held. */
    ghost predicate Valid()
      reads this
    {
      && |file| == numPages && RESERVED <= numPages <= NO_FREE && lastLsn < U32
      && ReadHeader(file[0]) == Some(Header(numPages, freeHead, lastLsn))
      && Chain(file, freeHead, free) && Distinct(free)
      && Partition(free, held, numPages)
    }

    constructor ()
      ensures Valid() && numPages == RESERVED && free == [] && held == {} && lastLsn == 0
      ensures forall p :: 1 <= p < RESERVED ==> file[p] == Zeros(PAGE_SIZE)
      ensures ReadHeader(file[0]) == Some(Header(4, 0xFFFF_FFFF, 0))
    {
      var h := Header(RESERVED, NO_FREE, 0);
      numPages, freeHead, lastLsn, free, held := RESERVED, NO_FREE, 0, [], {};
      var z: Page := Zeros(PAGE_SIZE);
      file := [Stamp(z, h), z, z, z];
      new;
      HeaderRoundTrip(z, h);
    }

    /** What another process finds in the file. */
    method Reopen() returns (h: Option<Header>)
      requires Valid()
      ensures h == Some(Header(numPages, freeHead, lastLsn))
    {
      h := ReadHeader(file[0]);
    }

    method WriteHeader()
      requires |file| > 0 && Packable(Header(numPages, freeHead, lastLsn))
      modifies this`file
      ensures file == old(file)[0 := Stamp(old(file)[0], Header(numPages, freeHead, lastLsn))]
    {
      file := file[0 := Stamp(file[0], Header(numPages, freeHead, lastLsn))];
    }

    /** `_extend_to_unlocked`. */
    method ExtendTo(n: nat)
      requires Valid() && n <= NO_FREE
      modifies this`file, this`numPages, this`held
      ensures Valid() && numPages == (if n > old(numPages) then n else old(numPages))
      ensures forall p :: 1 <= p < numPages ==> file[p] == if p < old(numPages) then old(file)[p] else Zeros(PAGE_SIZE)
      ensures held == old(held) + Span(old(numPages), numPages)
    {
      if n <= numPages {
        return;
      }
      ghost var file0 := file;
      HeaderRoundTrip(file[0], Header(n, freeHead, lastLsn));
      Grow(free, held, numPages, n);
      hide Chain, ReadHeader, Stamp, Partition, Distinct;
      file := file + seq(n - numPages, _ => Zeros(PAGE_SIZE));
      held := held + Span(numPages, n);
      numPages := n;
      WriteHeader();
      OffHeader(old(free), old(held), old(numPages));
      ChainFrame(file0, file, freeHead, free);
    }
  
    /** `allocate_page`: a zeroed data page that nobody holds. */
    method AllocatePage() returns (pid: nat)
      requires Valid() && numPages < NO_FREE
      modifies this`file, this`numPages, this`freeHead, this`free, this`held
      ensures Valid() && RESERVED <= pid < numPages && pid !in old(held) && held == old(held) + {pid}
      ensures file[pid] == Zeros(PAGE_SIZE) && lastLsn == old(lastLsn)
      ensures free == if old(free) == [] then [] else old(free)[1..]
      ensures forall p :: 1 <= p < old(numPages) && p != pid ==> p < numPages && file[p] == old(file)[p]
    {
      hide Chain, ReadHeader, Stamp, Partition, NextFree, Distinct;
      if freeHead == NO_FREE {
        EmptyList(file, freeHead, free);
        NotFree(free, held, numPages, numPages);
        pid := numPages;
        ExtendTo(pid + 1);
        return;
      }
      ghost var file0, free0 := file, free;
      NonEmptyList(file, freeHead, free, held, numPages);
      pid := freeHead;
      var next := NextFree(file[pid]);
      ghost var rest := free[1..];
      NextBounded(file[pid]);
      HeaderRoundTrip(file[0], Header(numPages, next, lastLsn));
      file, freeHead := file[pid := Zeros(PAGE_SIZE)], next;
      WriteHeader();
      free, held := rest, held + {pid};
      ChainFrame(file0, file, next, rest);
    }

    /** `free_page`; false stands for ValueError. Exactly when the page was not free already is the
        list still finite. */
    method FreePage(pid: nat) returns (ok: bool)
      requires Valid()
      modifies this`file, this`freeHead, this`free, this`held
      ensures ok == (RESERVED <= pid < numPages)
      ensures !ok ==> Valid() && file == old(file) && free == old(free) && held == old(held)
      ensures ok && pid in old(held) ==> Valid() && free == [pid] + old(free) && held == old(held) - {pid}
      ensures ok ==> ((exists c :: Chain(file, freeHead, c)) <==> pid !in old(free))
      ensures |file| == numPages && forall p :: 1 <= p < numPages && p != pid ==> file[p] == old(file)[p]
    {
      ok := RESERVED <= pid < numPages;
      if !ok {
        NotFree(free, held, numPages, pid);
        return;
      }
      ghost var file0, free0, head0 := file, free, freeHead;
      HeadBounded(file, freeHead, free);
      LinkReads(file[pid], freeHead);
      HeaderRoundTrip(file[0], Header(numPages, pid, lastLsn));
      FreeOrHeld(free, held, numPages, pid);
      hide ReadHeader, Stamp, NextFree, Link;
      file := file[pid := Link(file[pid], freeHead)];
      freeHead := pid;
      WriteHeader();
      if pid in held {
        Pushed(file0, file, head0, free0, pid);
        PushedPartition(free0, held, numPages, pid);
        free, held := [pid] + free, held - {pid};
        assert Chain(file, freeHead, free);
      } else {
        DoubleFree(file0, file, head0, free0, pid);
      }
    }

    /** `write_page`; false stands for the ValueError on a payload that is not one page, the IndexError
        on a negative page and the struct.error on a page count that the header cannot hold, which
        leaves the file extended under its old header. The header bytes of page 0 are protected;
        writing past the end extends the file. A write to a free page is not refused: the pager stays
        sound exactly when it repeats the page's link. */
    method WritePage(pid: int, data: seq<byte>) returns (ok: bool)
      requires Valid()
      modifies this`file, this`numPages, this`held
      ensures ok == (|data| == PAGE_SIZE && 0 <= pid < NO_FREE)
      ensures Valid() <==>
                (|data| == PAGE_SIZE ==>
                   pid < NO_FREE && (pid in old(free) ==> NextFree(data) == NextFree(old(file)[pid])))
      ensures |data| != PAGE_SIZE || pid < 0 ==> file == old(file) && numPages == old(numPages) && held == old(held)
      ensures ok ==>
                pid < numPages == |file| && (pid > 0 ==> file[pid] == data)
                    && (pid == 0 ==> file[0][24..] == data[24..])
      ensures ok ==> held == old(held) + Span(old(numPages), pid + 1)
      ensures forall p :: 1 <= p < old(numPages) && p != pid ==> p < numPages == |file| && file[p] == old(file)[p]
      ensures |data| == PAGE_SIZE && pid >= NO_FREE ==>
                && numPages == |file| == pid + 1 && old(file) <= file
                   && (forall p :: old(numPages) <= p <= pid ==> file[p] == Zeros(PAGE_SIZE))
                && ReadHeader(file[0]) == Some(Header(old(numPages), freeHead, lastLsn))
    {
      hide Chain, ReadHeader, Stamp, Partition, Distinct, NextFree;
      ok := |data| == PAGE_SIZE && 0 <= pid < NO_FREE;
      FreeInFile(free, held, numPages);
      if |data| == PAGE_SIZE && pid >= NO_FREE {
        file := file + seq(pid + 1 - numPages, _ => Zeros(PAGE_SIZE));
        numPages := pid + 1;
      }
      if !ok {
        return;
      }
      if pid >= numPages {
        ExtendTo(pid + 1);
      }
      ghost var file0 := file;
      HeadBounded(file, freeHead, free);
      HeaderRoundTrip(data, Header(numPages, freeHead, lastLsn));
      OffHeader(free, held, numPages);
      file := file[pid := if pid == 0 then Stamp(data, Header(numPages, freeHead, lastLsn)) else data];
      if pid in free {
        WriteToFreePage(file0, freeHead, free, pid, data);
      } else {
        ChainFrame(file0, file, freeHead, free);
      }
    }

    /** `set_last_lsn`; false stands for ValueError on a negative LSN and for struct.error on one that
        does not fit the header, which the field keeps all the same. */
    method SetLastLsn(lsn: int) returns (ok: bool)
      requires Valid()
      modifies this`file, this`lastLsn
      ensures ok == (0 <= lsn < U32)
      ensures lsn < U32 ==> Valid() && lastLsn == (if lsn > old(lastLsn) then lsn else old(lastLsn))
      ensures forall p :: 1 <= p < numPages == |file| ==> file[p] == old(file)[p]
      ensures lsn >= U32 ==>
                lastLsn == lsn && file == old(file) && ReadHeader(file[0])
                    == Some(Header(numPages, freeHead, old(lastLsn)))
    {
      ok := lsn >= 0;
      if lsn > lastLsn {
        ghost var file0 := file;
        lastLsn := lsn;
        if lsn >= U32 {
          return false;
        }
        HeaderRoundTrip(file[0], Header(numPages, freeHead, lsn));
        HeadBounded(file, freeHead, free);
        OffHeader(free, held, numPages);
        hide Chain, ReadHeader, Stamp, Partition;
        WriteHeader();
        ChainFrame(file0, file, freeHead, free);
      }
    }
  }

  lemma FreeInFile(free: seq<nat>, held: set<nat>, n: nat)
    requires Partition(free, held, n)
    ensures forall p | p in free :: RESERVED <= p < n
  {
  }

  lemma EmptyList(file: seq<Page>, head: nat, free: seq<nat>)
    requires Chain(file, head, free) && head == NO_FREE
    ensures free == []
  {
  }

  lemma NextBounded(p: Page)
    ensures NextFree(p) < U32
  {
    Pow256Values();
    LEInverts(p[0..4]);
  }

  lemma HeadBounded(file: seq<Page>, head: nat, free: seq<nat>)
    requires Chain(file, head, free) && |file| <= NO_FREE
    ensures head < U32
  {
  }

  lemma NonEmptyList(file: seq<Page>, head: nat, free: seq<nat>, held: set<nat>, n: nat)
    requires Chain(file, head, free) && head != NO_FREE && Distinct(free) && Partition(free, held, n) && n == |file|
    ensures free != [] && head == free[0] && RESERVED <= head < n && head !in held && head !in free[1..]
    ensures Chain(file, NextFree(file[head]), free[1..]) && Distinct(free[1..])
            && Partition(free[1..], held + {head}, n)
    ensures 0 !in free[1..]
  {
    hide NextFree;
    var rest := free[1..];
    assert head in free;
    assert free == [head] + rest;
    forall p ensures p in free <==> p == head || p in rest {}
  }

  lemma NotFree(free: seq<nat>, held: set<nat>, n: nat, pid: nat)
    requires Partition(free, held, n) && !(RESERVED <= pid < n)
    ensures pid !in free && pid !in held
  {
  }

  lemma FreeOrHeld(free: seq<nat>, held: set<nat>, n: nat, pid: nat)
    requires Partition(free, held, n) && RESERVED <= pid < n
    ensures pid in held <==> pid !in free
    ensures 0 !in free
  {
  }

  lemma Pushed(file: seq<Page>, file': seq<Page>, head: nat, free: seq<nat>, pid: nat)
    requires Chain(file, head, free) && Distinct(free) && pid !in free && 0 !in free
             && pid < |file| == |file'| <= NO_FREE
    requires NextFree(file'[pid]) == head && forall p :: 1 <= p < |file| && p != pid ==> file'[p] == file[p]
    ensures Chain(file', pid, [pid] + free) && Distinct([pid] + free)
  {
    hide NextFree;
    ChainFrame(file, file', head, free);
    assert ([pid] + free)[1..] == free;
  }

  lemma PushedPartition(free: seq<nat>, held: set<nat>, n: nat, pid: nat)
    requires Partition(free, held, n) && pid in held
    ensures Partition([pid] + free, held - {pid}, n)
  {
    forall p ensures p in [pid] + free <==> p == pid || p in free {}
  }

  /** Freeing a free page closes the list into a loop. */
  lemma DoubleFree(file: seq<Page>, file': seq<Page>, head: nat, free: seq<nat>, pid: nat)
    requires Chain(file, head, free) && Distinct(free) && pid in free && 0 !in free
             && pid < |file| == |file'| <= NO_FREE
    requires NextFree(file'[pid]) == head && forall p :: 1 <= p < |file| && p != pid ==> file'[p] == file[p]
    ensures !exists c :: Chain(file', pid, c)
  {
    var k :| 0 <= k < |free| && free[k] == pid;
    forall c ensures !Chain(file', pid, c) {
      if Chain(file', pid, c) {
        var loop := [pid] + free[..k];
        ListIsLoop(file, file', head, free, k);
        LoopNeverEnds(file', loop, c);
      }
    }
  }

  lemma ListIsLoop(file: seq<Page>, file': seq<Page>, head: nat, free: seq<nat>, k: nat)
    requires Chain(file, head, free) && Distinct(free) && k < |free| && 0 !in free && |file| == |file'| <= NO_FREE
    requires free[k] < |file| && NextFree(file'[free[k]]) == head && forall p :: 1 <= p < |file| && p != free[k] ==>
               file'[p] == file[p]
    ensures Loop(file', [free[k]] + free[..k])
  {
    var loop := [free[k]] + free[..k];
    hide NextFree, Chain;
    forall i | 0 <= i < |loop| ensures loop[i] < |file'| && loop[i] != NO_FREE
        && NextFree(file'[loop[i]]) == Succ(loop, i) {
      if i > 0 {
        ChainAt(file, head, free, i - 1);
        ChainAt(file, head, free, i);
        assert loop[i] == free[i - 1] && free[i - 1..][1..] == free[i..] && free[i - 1] != free[k];
        assert free[i - 1] in free;
      }
    }
  }

  /** A write to a free page keeps the list exactly when it repeats the link. */
  lemma {:induction false} WriteToFreePage(file: seq<Page>, head: nat, free: seq<nat>, pid: nat, data: Page)
    requires Chain(file, head, free) && Distinct(free) && pid in free && pid < |file|
    ensures Chain(file[pid := data], head, free) <==> NextFree(data) == NextFree(file[pid])
    decreases free
  {
    hide NextFree;
    var file' := file[pid := data];
    if pid == free[0] {
      assert pid !in free[1..];
      ChainFrame(file, file', NextFree(file[head]), free[1..]);
      if NextFree(data) != NextFree(file[pid]) && Chain(file', head, free) {
        SameHead(file, file', NextFree(file[pid]), NextFree(data), free[1..]);
      }
    } else {
      assert pid in free[1..];
      WriteToFreePage(file, NextFree(file[head]), free[1..], pid, data);
    }
  }

  lemma SameHead(file: seq<Page>, file': seq<Page>, a: nat, b: nat, free: seq<nat>)
    requires Chain(file, a, free) && Chain(file', b, free)
    ensures a == b
  {
  }

  /** Data pages are free or held, never both; nothing else is either. */
  ghost predicate Partition(free: seq<nat>, held: set<nat>, n: nat) {
    && (forall p :: p in free || p in held <==> RESERVED <= p < n)
    && (forall p :: !(p in free && p in held))
  }

  function Span(a: nat, b: nat): (r: set<nat>)
    ensures forall p :: p in r <==> a <= p < b
    decreases b
  {
    if b <= a then {} else Span(a, b - 1) + {b - 1}
  }

  lemma OffHeader(free: seq<nat>, held: set<nat>, n: nat)
    requires Partition(free, held, n)
    ensures 0 !in free && forall f | f in free :: RESERVED <= f < n
  {
  }

  lemma Grow(free: seq<nat>, held: set<nat>, n: nat, m: nat)
    requires Partition(free, held, n) && RESERVED <= n <= m
    ensures Partition(free, held + Span(n, m), m)
  {
  }
}
