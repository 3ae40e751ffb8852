/** One slotted page: an 8-byte header, records growing up from byte 12, 6-byte slots growing down
    from the end. Everything is read from and written to the bytes. */
module HeapPage {
  import opened Common
  import opened Paging
  import opened Bytes

  const DATA_START: nat := 12
  const SLOT_SIZE: nat := 6
  const NO_NEXT: nat := 0xFFFF_FFFF

  /** What a slot stands for. */
  datatype Slot = Free | Used(data: seq<byte>)

  /** The three packed fields of a slot. */
  datatype Raw = Raw(off: nat, len: nat, flag: byte)

  function NextOf(p: Page): nat { FromLE(p[0..4]) }

  function SlotCount(p: Page): nat { FromLE(p[4..6]) }

  function DataEnd(p: Page): nat { FromLE(p[6..8]) }

  function SlotOffset(i: nat): int { PAGE_SIZE - (i + 1) * SLOT_SIZE }

  function SlotsStart(n: nat): int { PAGE_SIZE - n * SLOT_SIZE }

  function FreeBytes(p: Page): int { SlotsStart(SlotCount(p)) - DataEnd(p) }

  function RawAt(p: Page, i: nat): Raw
    requires SlotOffset(i) >= 0
  {
    var o := SlotOffset(i);
    Raw(FromLE(p[o..o + 2]), FromLE(p[o + 2..o + 4]), p[o + 4])
  }

  /** A slot is empty, or its record lies between the header and the end of the data. */
  ghost predicate SlotOk(p: Page, i: nat)
    requires SlotOffset(i) >= 0
  {
    var r := RawAt(p, i);
    || (r.flag == 1 && DATA_START <= r.off && r.off + r.len <= DataEnd(p))
    || r == Raw(0, 0, 0)
  }

  /** Data and slot table do not overlap, every record lies in the data, and records of used slots
      follow one another without overlap. */
  ghost predicate PageOk(p: Page) {
    && DATA_START <= DataEnd(p) <= SlotsStart(SlotCount(p))
    && (forall i :: 0 <= i < SlotCount(p) ==> SlotOk(p, i))
    && (forall i, j :: 0 <= i < j < SlotCount(p) ==> Before(RawAt(p, i), RawAt(p, j)))
  }

  predicate Before(a: Raw, b: Raw) {
    a.flag == 1 && b.flag == 1 ==> a.off + a.len <= b.off
  }

  function Record(p: Page, i: nat): Slot
    requires SlotOffset(i) >= 0
  {
    var r := RawAt(p, i);
    if r.flag == 0 || r.off + r.len > PAGE_SIZE then Free else Used(p[r.off..r.off + r.len])
  }

  // ----- writes

  function WriteHeader(p: Page, next: nat, count: nat, end: nat): Page {
    Splice(p, 0, LE(next, 4) + LE(count, 2) + LE(end, 2))
  }

  function WriteSlot(p: Page, i: nat, r: Raw): Page
    requires SlotOffset(i) >= 0
  {
    Splice(p, SlotOffset(i), LE(r.off, 2) + LE(r.len, 2) + [r.flag])
  }

  /** The bytes outside [lo, hi) are as before. */
  ghost predicate SameOutside(p: Page, q: Page, lo: int, hi: int) {
    forall a, b :: 0 <= a <= b <= PAGE_SIZE && (b <= lo || hi <= a) ==> q[a..b] == p[a..b]
  }

  lemma SpliceKeeps(p: Page, off: nat, d: seq<byte>)
    requires off + |d| <= PAGE_SIZE
    ensures SameOutside(p, Splice(p, off, d), off, off + |d|)
  {
    forall a, b | 0 <= a <= b <= PAGE_SIZE && (b <= off || off + |d| <= a) ensures Splice(p, off, d)[a..b] == p[a..b] {
      SpliceElsewhere(p, off, d, a, b);
    }
  }

  lemma HeaderReads(p: Page, next: nat, count: nat, end: nat)
    requires next < U32 && count < U16 && end < U16
    ensures var q := WriteHeader(p, next, count, end);
            NextOf(q) == next && SlotCount(q) == count && DataEnd(q) == end && SameOutside(p, q, 0, 8)
  {
    var d := LE(next, 4) + LE(count, 2) + LE(end, 2);
    var q := WriteHeader(p, next, count, end);
    assert q[..8] == d by { assert q[0..0 + |d|] == d; }
    assert q[0..4] == d[0..4] == LE(next, 4);
    assert q[4..6] == d[4..6] == LE(count, 2);
    assert q[6..8] == d[6..8] == LE(end, 2);
    Pow256Values();
    FromLEInverts(next, 4);
    FromLEInverts(count, 2);
    FromLEInverts(end, 2);
    SpliceKeeps(p, 0, d);
  }

  lemma SlotReads(p: Page, i: nat, r: Raw)
    requires SlotOffset(i) >= 0 && r.off < U16 && r.len < U16
    ensures RawAt(WriteSlot(p, i, r), i) == r
    ensures SameOutside(p, WriteSlot(p, i, r), SlotOffset(i), SlotOffset(i) + 5)
  {
    var d := LE(r.off, 2) + LE(r.len, 2) + [r.flag];
    var o := SlotOffset(i);
    var q := WriteSlot(p, i, r);
    assert q[o..o + 5] == d;
    assert q[o..o + 2] == d[0..2] == LE(r.off, 2);
    assert q[o + 2..o + 4] == d[2..4] == LE(r.len, 2);
    assert q[o + 4] == q[o..o + 5][4] == r.flag;
    Pow256Values();
    FromLEInverts(r.off, 2);
    FromLEInverts(r.len, 2);
    SpliceKeeps(p, o, d);
  }

  /** A slot outside the written bytes reads the same. */
  lemma SlotKept(p: Page, q: Page, lo: int, hi: int, i: nat)
    requires SameOutside(p, q, lo, hi) && SlotOffset(i) >= 0
    requires SlotOffset(i) + 5 <= lo || hi <= SlotOffset(i)
    ensures RawAt(q, i) == RawAt(p, i)
  {
    var o := SlotOffset(i);
    assert q[o..o + 2] == p[o..o + 2] && q[o + 2..o + 4] == p[o + 2..o + 4] && q[o + 4..o + 5] == p[o + 4..o + 5];
    assert q[o + 4] == q[o + 4..o + 5][0] && p[o + 4] == p[o + 4..o + 5][0];
  }

  lemma HeaderKept(p: Page, q: Page, lo: int, hi: int)
    requires SameOutside(p, q, lo, hi) && 8 <= lo
    ensures NextOf(q) == NextOf(p) && SlotCount(q) == SlotCount(p) && DataEnd(q) == DataEnd(p)
  {
    assert q[0..4] == p[0..4] && q[4..6] == p[4..6] && q[6..8] == p[6..8];
  }

  // ----- slots of a page that is no heap page

  /** Where `struct` looks for slot i: a negative offset counts from the end of the page. None stands
      for struct.error. */
  function SlotPlace(i: nat): (r: Option<nat>)
    ensures forall q: nat :: r == Some(q) <==>
              q + 5 <= PAGE_SIZE && (q == SlotOffset(i) || q == SlotOffset(i) + PAGE_SIZE)
  {
    var o := SlotOffset(i);
    if o >= 0 then Some(o)
    else if o + 5 > 0 || o + PAGE_SIZE < 0 then None
    else Some(o + PAGE_SIZE)
  }

  function RawFrom(p: Page, o: nat): Raw
    requires o + 5 <= PAGE_SIZE
  {
    Raw(FromLE(p[o..o + 2]), FromLE(p[o + 2..o + 4]), p[o + 4])
  }

  /** A slice stops at the end of the page. */
  function Clipped(p: Page, off: nat, len: nat): seq<byte> {
    var a, b := Min(off, PAGE_SIZE), Min(off + len, PAGE_SIZE);
    p[a..b]
  }

  function Min(a: nat, b: nat): nat { if a < b then a else b }

  function DropFrom(p: Page, o: nat): Page
    requires o + 5 <= PAGE_SIZE
  {
    Splice(p, o, LE(0, 2) + LE(0, 2) + [0])
  }

  lemma DroppedFrom(p: Page, o: nat)
    requires o + 5 <= PAGE_SIZE
    ensures RawFrom(DropFrom(p, o), o) == Raw(0, 0, 0) && SameOutside(p, DropFrom(p, o), o, o + 5)
  {
    var d := LE(0, 2) + LE(0, 2) + [0];
    var q := DropFrom(p, o);
    assert q[o..o + 5] == d;
    assert q[o..o + 2] == d[0..2] == LE(0, 2);
    assert q[o + 2..o + 4] == d[2..4] == LE(0, 2);
    assert q[o + 4] == q[o..o + 5][4] == 0;
    Pow256Values();
    FromLEInverts(0, 2);
    SpliceKeeps(p, o, d);
  }

  // ----- the operations on one page

  function PutSlots(p: Page, e: seq<byte>): Page
    requires SlotOffset(SlotCount(p)) >= 0 && DataEnd(p) + |e| <= PAGE_SIZE
  {
    WriteSlot(Splice(p, DataEnd(p), e), SlotCount(p), Raw(DataEnd(p), |e|, 1))
  }

  /** `insert` on the chosen page: the record, its slot, then the header. */
  function Put(p: Page, e: seq<byte>): Page
    requires SlotOffset(SlotCount(p)) >= 0 && DataEnd(p) + |e| <= PAGE_SIZE
  {
    WriteHeader(PutSlots(p, e), NextOf(p), SlotCount(p) + 1, DataEnd(p) + |e|)
  }

  function Drop(p: Page, i: nat): Page
    requires SlotOffset(i) >= 0
  {
    WriteSlot(p, i, Raw(0, 0, 0))
  }

  function Relink(p: Page, next: nat): Page {
    WriteHeader(p, next, SlotCount(p), DataEnd(p))
  }

  function Blank(p: Page): Page {
    WriteHeader(p, NO_NEXT, 0, DATA_START)
  }

  lemma FieldsBounded(p: Page)
    ensures NextOf(p) < U32 && SlotCount(p) < U16 && DataEnd(p) < U16
  {
    Pow256Values();
    LEInverts(p[0..4]);
    LEInverts(p[4..6]);
    LEInverts(p[6..8]);
  }

  /** q has p's first n slots and p's data up to `end`. */
  ghost predicate Extends(p: Page, q: Page, n: nat, end: nat) {
    && (forall i :: 0 <= i < n && SlotOffset(i) >= 0 ==> RawAt(q, i) == RawAt(p, i))
    && (forall a, b :: DATA_START <= a <= b <= end && b <= PAGE_SIZE ==> q[a..b] == p[a..b])
  }

  /** With room, the record and its slot land in free bytes: every older slot and record stays. */
  lemma PutSlotsKeeps(p: Page, e: seq<byte>)
    requires PageOk(p) && SLOT_SIZE + |e| <= FreeBytes(p)
    ensures var q, n, end := PutSlots(p, e), SlotCount(p), DataEnd(p);
            && RawAt(q, n) == Raw(end, |e|, 1) && q[end..end + |e|] == e
            && SlotCount(q) == n && DataEnd(q) == end && NextOf(q) == NextOf(p)
            && Extends(p, q, n, end)
  {
    var n, end := SlotCount(p), DataEnd(p);
    FieldsBounded(p);
    var m := Splice(p, end, e);
    SpliceKeeps(p, end, e);
    var q := PutSlots(p, e);
    SlotReads(m, n, Raw(end, |e|, 1));
    assert m[end..end + |e|] == e;
    hide Splice, WriteSlot;
    var o := SlotOffset(n);
    assert q[end..end + |e|] == m[end..end + |e|];
    HeaderKept(p, m, end, end + |e|);
    HeaderKept(m, q, o, o + 5);
    forall i | 0 <= i < n && SlotOffset(i) >= 0 ensures RawAt(q, i) == RawAt(p, i) {
      SlotKept(p, m, end, end + |e|, i);
      SlotKept(m, q, o, o + 5, i);
    }
    forall a, b | DATA_START <= a <= b <= end && b <= PAGE_SIZE ensures q[a..b] == p[a..b] {
      assert m[a..b] == p[a..b];
    }
  }

  /** A write to the header alone keeps slots and data. */
  lemma HeaderOnly(p: Page, next: nat, count: nat, end: nat, n: nat)
    requires next < U32 && count < U16 && end < U16 && n * SLOT_SIZE + 8 <= PAGE_SIZE
    ensures var q := WriteHeader(p, next, count, end);
            NextOf(q) == next && SlotCount(q) == count && DataEnd(q) == end && Extends(p, q, n, PAGE_SIZE)
  {
    HeaderReads(p, next, count, end);
    var q := WriteHeader(p, next, count, end);
    hide WriteHeader, RawAt;
    forall i | 0 <= i < n && SlotOffset(i) >= 0 ensures RawAt(q, i) == RawAt(p, i) {
      SlotKept(p, q, 0, 8, i);
    }
  }

  lemma ExtendsTrans(p: Page, m: Page, q: Page, n: nat, end: nat, n': nat)
    requires Extends(p, m, n, end) && Extends(m, q, n', PAGE_SIZE) && n <= n'
    ensures Extends(p, q, n, end)
  {
    hide RawAt;
    forall a, b | DATA_START <= a <= b <= end && b <= PAGE_SIZE ensures q[a..b] == p[a..b] {
      assert q[a..b] == m[a..b];
    }
  }

  lemma RecordKept(p: Page, q: Page, n: nat, end: nat, i: nat)
    requires Extends(p, q, n, end) && i < n && SlotOffset(i) >= 0 && end == DataEnd(p) <= DataEnd(q) && SlotOk(p, i)
    ensures SlotOk(q, i) && Record(q, i) == Record(p, i)
  {
    hide DataEnd;
    assert RawAt(q, i) == RawAt(p, i);
    var r := RawAt(p, i);
    hide RawAt;
    if r.flag == 1 && r.off + r.len <= PAGE_SIZE {
      assert q[r.off..r.off + r.len] == p[r.off..r.off + r.len];
    }
  }

  lemma RoomFacts(p: Page, e: seq<byte>)
    requires PageOk(p) && SLOT_SIZE + |e| <= FreeBytes(p)
    ensures var n, end := SlotCount(p), DataEnd(p);
            && SlotOffset(n) >= DATA_START && DATA_START <= end && end + |e| <= PAGE_SIZE
            && (n + 1) * SLOT_SIZE + 8 <= PAGE_SIZE && n + 1 < U16 && end + |e| < U16
  {
  }

  lemma WindowKept(p: Page, q: Page, n: nat, a: nat, b: nat)
    requires Extends(p, q, n, PAGE_SIZE) && DATA_START <= a <= b <= PAGE_SIZE
    ensures q[a..b] == p[a..b]
  {
  }

  lemma SlotExtends(p: Page, q: Page, n: nat, i: nat)
    requires Extends(p, q, n, PAGE_SIZE) && i < n && SlotOffset(i) >= 0
    ensures RawAt(q, i) == RawAt(p, i)
  {
  }

  lemma PutRaw(p: Page, e: seq<byte>)
    requires PageOk(p) && SLOT_SIZE + |e| <= FreeBytes(p)
    ensures var q, n, end := Put(p, e), SlotCount(p), DataEnd(p);
            && NextOf(q) == NextOf(p) && SlotCount(q) == n + 1 && DataEnd(q) == end + |e|
            && RawAt(q, n) == Raw(end, |e|, 1) && q[end..end + |e|] == e && Extends(p, q, n, end)
  {
    hide PutSlots, RawAt, NextOf, SlotCount, DataEnd, PageOk, FreeBytes, WriteHeader, Extends, SlotOffset;
    var n, end := SlotCount(p), DataEnd(p);
    RoomFacts(p, e);
    FieldsBounded(p);
    PutSlotsKeeps(p, e);
    PutHeader(p, PutSlots(p, e), e, n, end);
  }

  /** The header on top of the new slot and record. */
  lemma PutHeader(p: Page, m: Page, e: seq<byte>, n: nat, end: nat)
    requires NextOf(p) < U32 && n + 1 < U16 && end + |e| < U16
    requires DATA_START <= end && end + |e| <= PAGE_SIZE && (n + 1) * SLOT_SIZE + 8 <= PAGE_SIZE
    requires Extends(p, m, n, end) && RawAt(m, n) == Raw(end, |e|, 1) && m[end..end + |e|] == e
    ensures var q := WriteHeader(m, NextOf(p), n + 1, end + |e|);
            && NextOf(q) == NextOf(p) && SlotCount(q) == n + 1 && DataEnd(q) == end + |e|
            && RawAt(q, n) == Raw(end, |e|, 1) && q[end..end + |e|] == e && Extends(p, q, n, end)
  {
    hide RawAt, NextOf, SlotCount, DataEnd, WriteHeader, Extends;
    var q := WriteHeader(m, NextOf(p), n + 1, end + |e|);
    HeaderOnly(m, NextOf(p), n + 1, end + |e|, n + 1);
    ExtendsTrans(p, m, q, n, end, n + 1);
    WindowKept(m, q, n + 1, end, end + |e|);
    SlotExtends(m, q, n + 1, n);
  }

  /** Insertion on a page with room: a new last slot with exactly this record, nothing else changes. */
  lemma PutOk(p: Page, e: seq<byte>)
    requires PageOk(p) && SLOT_SIZE + |e| <= FreeBytes(p)
    ensures var q, n := Put(p, e), SlotCount(p);
            && PageOk(q) && NextOf(q) == NextOf(p) && SlotCount(q) == n + 1
            && Record(q, n) == Used(e) && forall i :: 0 <= i < n ==> Record(q, i) == Record(p, i)
  {
    PutRaw(p, e);
    var q, n, end := Put(p, e), SlotCount(p), DataEnd(p);
    RoomFacts(p, e);
    hide Put, NextOf, SlotCount, DataEnd, RawAt, Extends;
    forall i | 0 <= i < n ensures SlotOk(q, i) && Record(q, i) == Record(p, i) {
      RecordKept(p, q, n, end, i);
    }
    assert SlotOk(q, n) && Record(q, n) == Used(e);
    assert SlotsStart(n + 1) == SlotOffset(n);
    PutOrdered(p, q, n, |e|);
    hide Record, SlotOk;
  }

  lemma PutOrdered(p: Page, q: Page, n: nat, len: nat)
    requires PageOk(p) && n == SlotCount(p) && Extends(p, q, n, DataEnd(p)) && SlotOffset(n) >= 0
    requires RawAt(q, n) == Raw(DataEnd(p), len, 1)
    ensures forall i, j :: 0 <= i < j < n + 1 ==> Before(RawAt(q, i), RawAt(q, j))
  {
    hide NextOf, SlotCount, DataEnd, RawAt;
    forall i, j | 0 <= i < j < n + 1 ensures Before(RawAt(q, i), RawAt(q, j)) {
      assert SlotOk(p, i) && RawAt(q, i) == RawAt(p, i);
    }
  }

  /** A longer record on a blank page runs into its own slot. */
  lemma PutTooLong(p: Page, e: seq<byte>)
    requires SlotCount(p) == 0 && DataEnd(p) == DATA_START
             && PAGE_SIZE - DATA_START - SLOT_SIZE < |e| <= PAGE_SIZE - DATA_START
    ensures !PageOk(Put(p, e))
  {
    FieldsBounded(p);
    HeaderReads(PutSlots(p, e), NextOf(p), 1, DATA_START + |e|);
  }

  /** The five bytes of the slot that such a record gets. */
  function OwnSlot(n: nat): seq<byte> {
    LE(DATA_START, 2) + LE(n, 2) + [1]
  }

  function Overlap(n: nat): nat
    requires 4078 < n <= 4084
  {
    if n <= 4083 then n - 4078 else 5
  }

  /** Exactly when such a record reads back: where it meets its slot it already has the slot's bytes. */
  lemma TooLongReadsBack(p: Page, e: seq<byte>)
    requires SlotCount(p) == 0 && DataEnd(p) == DATA_START && 4078 < |e| <= 4084
    ensures Record(Put(p, e), 0) == Used(e) <==> e[4078..4078 + Overlap(|e|)] == OwnSlot(|e|)[..Overlap(|e|)]
  {
    var m, q := Splice(p, DATA_START, e), Put(p, e);
    var s, d, k := PutSlots(p, e), OwnSlot(|e|), Overlap(|e|);
    SlotReads(m, 0, Raw(DATA_START, |e|, 1));
    assert m[12..12 + |e|] == e;
    assert s[4090..4095] == d;
    FieldsBounded(p);
    HeaderReads(s, NextOf(p), 1, DATA_START + |e|);
    hide WriteHeader, WriteSlot, Splice;
    SlotKept(s, q, 0, 8, 0);
    assert q[12..12 + |e|] == s[12..12 + |e|];
    assert Record(q, 0) == Used(s[12..12 + |e|]);
    OverSlot(m, s, e, d, k);
  }

  lemma OverSlot(m: Page, s: Page, e: seq<byte>, d: seq<byte>, k: nat)
    requires 4078 < |e| <= 4084 && |d| == 5 && k == Overlap(|e|)
    requires m[12..12 + |e|] == e && s[4090..4095] == d && SameOutside(m, s, 4090, 4095)
    ensures s[12..12 + |e|] == e <==> e[4078..4078 + k] == d[..k]
  {
    var t := s[12..12 + |e|];
    assert t[..4078] == e[..4078] by {
      assert s[12..4090] == m[12..4090];
      assert t[..4078] == s[12..4090] && e[..4078] == m[12..4090];
    }
    assert t[4078..4078 + k] == d[..k] by {
      SliceOfSlice(s, 12, 12 + |e|, 4078, 4078 + k);
      SliceOfSlice(s, 4090, 4095, 0, k);
    }
    if |e| == 4084 {
      assert s[4095..4096] == m[4095..4096];
      assert t[4083] == s[4095] == s[4095..4096][0] && e[4083] == m[4095] == m[4095..4096][0];
    }
    assert e == e[..4078] + e[4078..4078 + k] + e[4078 + k..] && t == t[..4078] + t[4078..4078 + k] + t[4078 + k..];
    assert t[4078 + k..] == e[4078 + k..];
  }

  lemma SliceOfSlice(s: seq<byte>, a: nat, b: nat, c: nat, d: nat)
    requires a <= b <= |s| && c <= d <= b - a
    ensures s[a..b][c..d] == s[a + c..a + d]
  {
    var x, y := s[a..b][c..d], s[a + c..a + d];
    forall i | 0 <= i < d - c ensures x[i] == y[i] {
      assert x[i] == s[a..b][c + i] == s[a + c + i];
    }
  }

  lemma FirstByte(e: seq<byte>)
    requires |e| == 4079 && e[4078] == 0
    ensures e[4078..4078 + Overlap(4079)] != OwnSlot(4079)[..Overlap(4079)]
  {
    assert e[4078..4079][0] == 0 && OwnSlot(4079)[..1][0] == 12;
  }

  /** A record that does not: 4079 zero bytes end in the low byte of the slot's offset. */
  lemma TooLongIsCorrupted(p: Page)
    requires p == Blank(Zeros(PAGE_SIZE))
    ensures var e := Zeros(4079); SlotCount(p) == 0 && DataEnd(p) == DATA_START && Record(Put(p, e), 0) != Used(e)
  {
    BlankOk(Zeros(PAGE_SIZE));
    var e := Zeros(4079);
    hide Blank, Put, Record, SlotCount, DataEnd, Zeros;
    TooLongReadsBack(p, e);
    FirstByte(e);
  }

  /** Deletion empties exactly that slot. */
  lemma DropOk(p: Page, i: nat)
    requires PageOk(p) && i < SlotCount(p)
    ensures SlotOffset(i) >= 0
    ensures var q := Drop(p, i);
            && PageOk(q) && NextOf(q) == NextOf(p) && SlotCount(q) == SlotCount(p)
            && Record(q, i) == Free && forall j :: 0 <= j < SlotCount(p) && j != i ==> Record(q, j) == Record(p, j)
  {
    var n, end, o := SlotCount(p), DataEnd(p), SlotOffset(i);
    var q := Drop(p, i);
    SlotReads(p, i, Raw(0, 0, 0));
    HeaderKept(p, q, o, o + 5);
    hide Drop, NextOf, SlotCount, DataEnd, RawAt;
    forall j | 0 <= j < n ensures RawAt(q, j) == if j == i then Raw(0, 0, 0) else RawAt(p, j) {
      if j != i {
        SlotKept(p, q, o, o + 5, j);
      }
    }
    forall j | 0 <= j < n && j != i ensures SlotOk(q, j) && Record(q, j) == Record(p, j) {
      assert SlotOk(p, j);
      SameRecord(p, q, o, o + 5, j);
    }
    assert SlotOk(q, i);
    hide SameOutside, SlotOk, Record;
  }

  lemma SameRecord(p: Page, q: Page, lo: int, hi: int, j: nat)
    requires SlotOffset(j) >= 0 && SlotOk(p, j) && RawAt(q, j) == RawAt(p, j) && DataEnd(p) <= lo
             && SameOutside(p, q, lo, hi)
    ensures Record(q, j) == Record(p, j)
  {
    hide RawAt, DataEnd;
    var r := RawAt(p, j);
    if r.flag == 1 && r.off + r.len <= PAGE_SIZE {
      assert q[r.off..r.off + r.len] == p[r.off..r.off + r.len];
    }
  }

  /** Linking a page to a successor changes no slot. */
  lemma RelinkOk(p: Page, next: nat)
    requires PageOk(p) && next < U32
    ensures var q := Relink(p, next);
            && PageOk(q) && NextOf(q) == next && SlotCount(q) == SlotCount(p)
            && forall i :: 0 <= i < SlotCount(p) ==> Record(q, i) == Record(p, i)
  {
    var q, n, end := Relink(p, next), SlotCount(p), DataEnd(p);
    FieldsBounded(p);
    HeaderOnly(p, next, n, end, n);
    hide Relink, NextOf, SlotCount, DataEnd, RawAt;
    forall i | 0 <= i < n ensures RawAt(q, i) == RawAt(p, i) && SlotOk(q, i) && Record(q, i) == Record(p, i) {
      assert Extends(p, q, n, end);
      RecordKept(p, q, n, end, i);
    }
    hide Extends, SlotOk, Record;
  }

  lemma BlankOk(p: Page)
    ensures PageOk(Blank(p)) && NextOf(Blank(p)) == NO_NEXT && SlotCount(Blank(p)) == 0
            && DataEnd(Blank(p)) == DATA_START
  {
    HeaderReads(p, NO_NEXT, 0, DATA_START);
  }
}
