/** The slotted heap: a chain of pages that stands for a table from row ids to records. */
module Heap {
  import opened Common
  import opened Paging
  import opened Bytes
  import opened HeapPage

  /** One call of the page-write callback. */
  datatype Write = Write(pid: nat, before: seq<byte>, after: seq<byte>)

  type Pages = map<nat, Page>
  type Table = map<Rid, Slot>

  /** The chain of pages from `head` on: each well formed, each naming the next. */
  ghost predicate ChainOn(pages: Pages, head: nat, chain: seq<nat>) {
    && chain != [] && chain[0] == head
    && (forall i, j :: 0 <= i < j < |chain| ==> chain[i] != chain[j])
    && (forall k :: 0 <= k < |chain| ==> chain[k] in pages && chain[k] < NO_NEXT && LinkOk(pages, chain, k))
  }

  ghost predicate LinkOk(pages: Pages, chain: seq<nat>, k: nat)
    requires k < |chain| && chain[k] in pages
  {
    var p := pages[chain[k]];
    PageOk(p) && NextOf(p) == if k + 1 < |chain| then chain[k + 1] else NO_NEXT
  }

  /** The table holds exactly the slots of the chain's pages. */
  ghost predicate TableOn(pages: Pages, chain: seq<nat>, table: Table) {
    && (forall c | c in chain :: c in pages && PageOk(pages[c]))
    && (forall r: Rid :: r in table <==> r.page in chain && r.slot < SlotCount(pages[r.page]))
    && (forall r: Rid | r in table :: SlotOffset(r.slot) >= 0 && table[r] == Record(pages[r.page], r.slot))
  }

  /** Every logged image is exact: `before` is the page at that moment, `after` what it becomes. */
  ghost predicate Traced(pages: Pages, ws: seq<Write>, pages': Pages) {
    if ws == [] then pages' == pages
    else
      var w := ws[0];
      && w.pid in pages && w.before == pages[w.pid] && |w.after| == PAGE_SIZE
      && Traced(pages[w.pid := w.after], ws[1..], pages')
  }

  /** At most one of the writes is to page p. */
  predicate OnceOn(ws: seq<Write>, p: nat) {
    forall i, j :: 0 <= i < j < |ws| ==> !(ws[i].pid == p && ws[j].pid == p)
  }

  lemma {:induction false} TracedSnoc(pages: Pages, ws: seq<Write>, pages': Pages, w: Write)
    requires Traced(pages, ws, pages') && w.pid in pages' && w.before == pages'[w.pid] && |w.after| == PAGE_SIZE
    ensures Traced(pages, ws + [w], pages'[w.pid := w.after])
    decreases ws
  {
    if ws == [] {
      assert [w][1..] == [];
    } else {
      assert (ws + [w])[1..] == ws[1..] + [w];
      TracedSnoc(pages[ws[0].pid := ws[0].after], ws[1..], pages', w);
    }
  }

  // ----- one page of the chain changes

  /** Page chain[k] replaced by a well-formed page with the same successor. */
  lemma Replace(pages: Pages, head: nat, chain: seq<nat>, k: nat, q: Page)
    requires ChainOn(pages, head, chain) && k < |chain| && PageOk(q) && NextOf(q) == NextOf(pages[chain[k]])
    ensures ChainOn(pages[chain[k] := q], head, chain)
  {
    hide PageOk, NextOf;
    var pages' := pages[chain[k] := q];
    forall j | 0 <= j < |chain| ensures chain[j] in pages' && LinkOk(pages', chain, j) {
      assert LinkOk(pages, chain, j);
    }
  }

  lemma PutInTable(pages: Pages, chain: seq<nat>, table: Table, pid: nat, e: seq<byte>)
    requires TableOn(pages, chain, table) && pid in chain && SLOT_SIZE + |e| <= FreeBytes(pages[pid])
    ensures var p := pages[pid];
            var r := Rid(pid, SlotCount(p));
            && r !in table && SlotOffset(SlotCount(p)) >= 0 && DataEnd(p) + |e| <= PAGE_SIZE && PageOk(Put(p, e))
            && NextOf(Put(p, e)) == NextOf(p) && TableOn(pages[pid := Put(p, e)], chain, table[r := Used(e)])
  {
    var p := pages[pid];
    RoomFacts(p, e);
    PutOk(p, e);
    hide Put, PageOk, SlotCount, Record, NextOf, DataEnd, FreeBytes;
    GrownTable(pages, chain, table, pid, Put(p, e), Used(e));
  }

  /** One page got one slot more; its older slots stand for the same. */
  lemma GrownTable(pages: Pages, chain: seq<nat>, table: Table, pid: nat, q: Page, u: Slot)
    requires TableOn(pages, chain, table) && pid in chain && PageOk(q)
    requires var p, n := pages[pid], SlotCount(pages[pid]);
             && SlotCount(q) == n + 1 && SlotOffset(n) >= 0 && Record(q, n) == u
             && forall i :: 0 <= i < n ==> Record(q, i) == Record(p, i)
    ensures var r := Rid(pid, SlotCount(pages[pid]));
            r !in table && TableOn(pages[pid := q], chain, table[r := u])
  {
    hide PageOk, SlotCount, Record;
    var n := SlotCount(pages[pid]);
    var pages', table' := pages[pid := q], table[Rid(pid, n) := u];
    forall r: Rid ensures r in table' <==> r.page in chain && r.slot < SlotCount(pages'[r.page]) {}
    forall r: Rid | r in table' ensures SlotOffset(r.slot) >= 0 && table'[r] == Record(pages'[r.page], r.slot) {}
  }

  lemma DropInTable(pages: Pages, chain: seq<nat>, table: Table, r: Rid)
    requires TableOn(pages, chain, table) && r in table
    ensures var q := Drop(pages[r.page], r.slot);
            && PageOk(q) && NextOf(q) == NextOf(pages[r.page]) && TableOn(pages[r.page := q], chain, table[r := Free])
  {
    hide Drop, PageOk, SlotCount, Record, NextOf, RawAt, DataEnd;
    var p := pages[r.page];
    DropOk(p, r.slot);
    var q := Drop(p, r.slot);
    var pages', table' := pages[r.page := q], table[r := Free];
    forall s: Rid | s in table' ensures SlotOffset(s.slot) >= 0 && table'[s] == Record(pages'[s.page], s.slot) {}
  }

  /** A fresh blank page linked after the tail: the table does not change. */
  lemma Extend(pages: Pages, head: nat, chain: seq<nat>, table: Table, n: nat, p0: Page)
    requires ChainOn(pages, head, chain) && TableOn(pages, chain, table) && n !in pages && n < NO_NEXT
    ensures var tail := chain[|chain| - 1];
            var pages' := pages[n := p0][tail := Relink(pages[tail], n)][n := Blank(p0)];
            ChainOn(pages', head, chain + [n]) && TableOn(pages', chain + [n], table) && PageOk(pages'[n])
            && SlotCount(pages'[n]) == 0 && DataEnd(pages'[n]) == DATA_START
  {
    var last := |chain| - 1;
    var tail := chain[last];
    assert LinkOk(pages, chain, last);
    RelinkOk(pages[tail], n);
    BlankOk(p0);
    var pages' := pages[n := p0][tail := Relink(pages[tail], n)][n := Blank(p0)];
    hide Relink, Blank, PageOk, SlotCount, Record, NextOf, DataEnd;
    ExtendChain(pages, pages', head, chain, n);
    ExtendTable(pages, pages', chain, table, n);
  }

  lemma ExtendChain(pages: Pages, pages': Pages, head: nat, chain: seq<nat>, n: nat)
    requires ChainOn(pages, head, chain) && n !in pages && n < NO_NEXT && n in pages'
    requires PageOk(pages'[n]) && NextOf(pages'[n]) == NO_NEXT
    requires forall p | p in pages :: p in pages' && (p != chain[|chain| - 1] ==> pages'[p] == pages[p])
    requires PageOk(pages'[chain[|chain| - 1]]) && NextOf(pages'[chain[|chain| - 1]]) == n
    ensures ChainOn(pages', head, chain + [n])
  {
    hide PageOk, NextOf;
    var c := chain + [n];
    forall k | 0 <= k < |c| ensures c[k] in pages' && c[k] < NO_NEXT && LinkOk(pages', c, k) {
      if k < |chain| {
        assert LinkOk(pages, chain, k) && c[k] == chain[k];
        if k + 1 < |chain| {
          assert c[k + 1] == chain[k + 1];
        }
      }
    }
  }

  lemma ExtendTable(pages: Pages, pages': Pages, chain: seq<nat>, table: Table, n: nat)
    requires TableOn(pages, chain, table) && n !in pages && n in pages' && PageOk(pages'[n])
             && SlotCount(pages'[n]) == 0
    requires forall c | c in chain :: c in pages' && PageOk(pages'[c]) && SlotCount(pages'[c]) == SlotCount(pages[c])
    requires forall c, i | c in chain && 0 <= i < SlotCount(pages[c]) ::
               SlotOffset(i) >= 0 && Record(pages'[c], i) == Record(pages[c], i)
    ensures TableOn(pages', chain + [n], table)
  {
    hide PageOk, SlotCount, Record;
    forall c ensures c in chain + [n] <==> c in chain || c == n {}
    forall r: Rid ensures r in table <==> r.page in chain + [n] && r.slot < SlotCount(pages'[r.page]) {}
  }

  const MAX_RECORD: nat := PAGE_SIZE - DATA_START - SLOT_SIZE    // 4078

  datatype ReadResult = NoSuchPage | StructError | Absent | Found(data: seq<byte>)

  /** What `read` makes of the bytes of any page. */
  function ReadBytes(p: Page, slot: nat): ReadResult {
    if slot >= SlotCount(p) then Absent
    else if SlotPlace(slot).None? then StructError
    else
      var raw := RawFrom(p, SlotPlace(slot).value);
      if raw.flag == 0 || raw.len == 0 then Absent else Found(Clipped(p, raw.off, raw.len))
  }

  class HeapFile {
    var pages: Pages
    var numPages: nat
    var headPid: nat
    var log: seq<Write>
    ghost var chain: seq<nat>
    ghost var table: Table

    ghost predicate Valid()
      reads this
    {
      && ChainOn(pages, headPid, chain) && TableOn(pages, chain, table)
      && forall p | p in pages :: p < numPages
    }

    /** `__init__` on a pager that so far holds `others`. */
    constructor (others: Pages, n: nat)
      requires n < NO_NEXT && forall p | p in others :: p < n
      ensures Valid() && table == map[] && log == [] && forall p | p in others :: p in pages && pages[p] == others[p]
    {
      var first := Blank(Zeros(PAGE_SIZE));
      pages, numPages, headPid, log := others[n := first], n + 1, n, [];
      chain, table := [n], map[];
      new;
      BlankOk(Zeros(PAGE_SIZE));
    }

    /** `_write_page_logged`: the callback first, then the write; false stands for the pager's
        ValueError on a payload that is not one page. */
    method WriteLogged(pid: nat, data: seq<byte>) returns (ok: bool)
      requires pid in pages
      modifies this`pages, this`log
      ensures ok == (|data| == PAGE_SIZE) && log == old(log) + [Write(pid, old(pages)[pid], data)]
      ensures pages == if |data| == PAGE_SIZE then old(pages)[pid := data] else old(pages)
    {
      log := log + [Write(pid, pages[pid], data)];
      ok := |data| == PAGE_SIZE;
      if ok {
        pages := pages[pid := data];
      }
    }

    /** `_append_overflow_page`. */
    method AppendOverflowPage(tail: nat) returns (pid: nat, ghost ws: seq<Write>)
      requires Valid() && tail == chain[|chain| - 1] && numPages < NO_NEXT
      modifies this`pages, this`numPages, this`log, this`chain
      ensures Valid() && pid == old(numPages) && numPages == pid + 1 && chain == old(chain) + [pid]
      ensures SlotCount(pages[pid]) == 0 && DataEnd(pages[pid]) == DATA_START
      ensures log == old(log) + ws && Traced(old(pages)[pid := Zeros(PAGE_SIZE)], ws, pages) && forall w <- ws ::
                w.pid in chain
      ensures |ws| == 2 && ws[0].pid == tail && ws[1].pid == pid
    {
      hide Relink, Blank, TableOn, ChainOn, Traced, SlotCount, DataEnd, PageOk;
      ghost var pages0, log0 := pages, log;
      TailKnown(pages0, headPid, chain);
      Extend(pages0, headPid, chain, table, numPages, Zeros(PAGE_SIZE));
      pid := numPages;
      pages, numPages := pages[pid := Zeros(PAGE_SIZE)], numPages + 1;
      ghost var pages1 := pages;
      var ok := WriteLogged(tail, Relink(pages[tail], pid));
      ghost var w := Write(tail, pages1[tail], Relink(pages1[tail], pid));
      ok := WriteLogged(pid, Blank(pages[pid]));
      ghost var w' := Write(pid, pages1[pid], Blank(pages1[pid]));
      chain := chain + [pid];
      TwoWrites(pages1, w, w');
      ws := [w, w'];
    }

    /** The page `insert` settles on: the first in the chain with room, else a fresh one at the end. */
    method FindRoom(needed: nat) returns (pid: nat, ghost grown: bool, ghost ws: seq<Write>)
      requires Valid() && numPages < NO_NEXT
      modifies this`pages, this`numPages, this`log, this`chain
      ensures Valid() && pid in chain
      ensures log == old(log) + ws && forall w <- ws :: w.pid in chain
      ensures !grown ==>
                FreeBytes(pages[pid]) >= needed && pages == old(pages) && ws == [] && chain == old(chain)
                    && numPages == old(numPages)
      ensures grown ==>
                && forall c | c in old(chain) :: FreeBytes(old(pages)[c]) < needed
      ensures grown ==>
                && pid == old(numPages) && chain == old(chain) + [pid] && SlotCount(pages[pid]) == 0
                   && DataEnd(pages[pid]) == DATA_START
                && Traced(old(pages)[pid := Zeros(PAGE_SIZE)], ws, pages) && |ws| == 2 && ws[1].pid == pid
    {
      pid, grown, ws := headPid, false, [];
      ghost var k := 0;
      while FreeBytes(pages[pid]) < needed
        invariant Valid() && pages == old(pages) && chain == old(chain) && log == old(log) && numPages == old(numPages)
        invariant k < |chain| && pid == chain[k] && forall j :: 0 <= j < k ==> FreeBytes(pages[chain[j]]) < needed
        decreases |chain| - k
      {
        ChainNext(pages, headPid, chain, k);
        hide FreeBytes;
        var next := NextOf(pages[pid]);
        if next == NO_NEXT {
          grown := true;
          pid, ws := AppendOverflowPage(pid);
          return;
        }
        pid, k := next, k + 1;
      }
    }
  
    /** `insert`. Up to MAX_RECORD bytes it adds one fresh row id that stands for the record. Up to six
        bytes more and the record overlaps its own slot; past that the pager refuses the page, after
        the callback has seen it and an empty page has been linked. */
    method Insert(e: seq<byte>) returns (r: Option<Rid>, ghost ws: seq<Write>, ghost grown: bool)
      requires Valid() && numPages < NO_NEXT
      modifies this`pages, this`numPages, this`log, this`chain, this`table
      ensures |e| <= MAX_RECORD ==>
                r.Some? && Valid() && r.value !in old(table) && table == old(table)[r.value := Used(e)]
      ensures MAX_RECORD < |e| <= MAX_RECORD + SLOT_SIZE ==>
                r.Some? && r.value !in old(table) && r.value.page in pages && !PageOk(pages[r.value.page])
      ensures |e| > MAX_RECORD + SLOT_SIZE ==> r.None? && Valid() && table == old(table)
      ensures log == old(log) + ws && forall w <- ws :: w.pid in chain
      ensures RefusedAfterLogging(e) ==> ws != []
      ensures chain == (if grown then old(chain) + [old(numPages)] else old(chain)) && forall c | c in old(chain) ::
                OnceOn(ws, c)
      ensures Traced(if grown then old(pages)[old(numPages) := Zeros(PAGE_SIZE)] else old(pages),
                     if RefusedAfterLogging(e) then ws[..|ws| - 1] else ws, pages)
    {
      hide SlotCount, DataEnd, FreeBytes, PageOk, ChainOn, TableOn, Traced, Put, Image;
      ghost var pages0, n0 := pages, numPages;
      var pid;
      pid, grown, ws := FindRoom(SLOT_SIZE + |e|);
      ghost var base := if grown then pages0[n0 := Zeros(PAGE_SIZE)] else pages0;
      ghost var pages1 := pages;
      OnChain(pages, headPid, chain, pid);
      TracedNone(base);
      ChainBelow(old(pages), old(headPid), old(chain), n0);
      var page := pages[pid];
      RoomFor(page, e, grown);
      NewSlot(pages, chain, table, pid);
      var rid := Rid(pid, SlotCount(page));
      if DataEnd(page) + |e| >= U16 {
        // the packing of the lengths raises
        r := None;
      } else if |e| > MAX_RECORD + SLOT_SIZE {
        // the record pushes the page past its size
        var ok := WriteLogged(pid, Image(page, e));
        ghost var w := Write(pid, page, Image(page, e));
        r := None;
        assert (ws + [w])[..|ws + [w]| - 1] == ws;
        ws := ws + [w];
      } else {
        ImageIsPut(page, e);
        var ok := WriteLogged(pid, Image(page, e));
        ghost var w := Write(pid, page, Put(page, e));
        TracedSnoc(base, ws, pages1, w);
        ws := ws + [w];
        r := Some(rid);
        if |e| <= MAX_RECORD {
          PutInTable(pages1, chain, table, pid, e);
          Replace(pages1, headPid, chain, IndexIn(chain, pid), Put(page, e));
          table := table[rid := Used(e)];
        } else {
          PutTooLong(page, e);
        }
      }
    }

    /** `read`. An empty record reads as absent. A row id on a page of another owner reads whatever
        the bytes there mean as a slot. */
    method Read(rid: Rid) returns (r: ReadResult)
      requires Valid()
      ensures rid.page !in pages ==> r == NoSuchPage
      ensures rid.page in chain ==>
                r == if rid in table && table[rid].Used? && table[rid].data != [] then Found(table[rid].data)
                    else Absent
      ensures rid.page in pages && rid.page !in chain ==> r == ReadBytes(pages[rid.page], rid.slot)
    {
      ChainPages(pages, headPid, chain);
      if rid.page in chain {
        ReadInTable(pages, chain, table, rid);
      }
      hide TableOn, ChainOn, SlotCount, RawFrom, Clipped, SlotPlace;
      if rid.page !in pages {
        return NoSuchPage;
      }
      var page := pages[rid.page];
      if rid.slot >= SlotCount(page) {
        return Absent;
      }
      var place := SlotPlace(rid.slot);
      if place.None? {
        return StructError;
      }
      var raw := RawFrom(page, place.value);
      if raw.flag == 0 || raw.len == 0 {
        return Absent;
      }
      r := Found(Clipped(page, raw.off, raw.len));
    }

    /** `delete`: the slot stays, empty; a slot that never was is left alone. False stands for the
        pager's IndexError and for struct.error. On a page of another owner it clears the five bytes
        where that slot would be. */
    method Delete(rid: Rid) returns (ok: bool, ghost ws: seq<Write>)
      requires Valid()
      modifies this`pages, this`log, this`table
      ensures Valid() && chain == old(chain)
      ensures ok == (rid.page in old(pages) && (rid.slot < SlotCount(old(pages)[rid.page]) ==>
                                                  SlotPlace(rid.slot).Some?))
      ensures rid.page in chain ==> ok
      ensures table == if rid in old(table) then old(table)[rid := Free] else old(table)
      ensures ok && rid.slot < SlotCount(old(pages)[rid.page]) ==>
                pages == old(pages)[rid.page := DropFrom(old(pages)[rid.page], SlotPlace(rid.slot).value)]
      ensures !ok || rid.slot >= SlotCount(old(pages)[rid.page]) ==> pages == old(pages)
      ensures log == old(log) + ws && Traced(old(pages), ws, pages) && forall w <- ws :: w.pid == rid.page
    {
      hide SlotCount, PageOk, ChainOn, TableOn, Traced, DropFrom, SlotPlace;
      ok, ws := rid.page in pages, [];
      TracedNone(pages);
      ChainPages(pages, headPid, chain);
      ReadSlot(pages, chain, table, rid);
      if !ok {
        return;
      }
      var page := pages[rid.page];
      if rid.slot >= SlotCount(page) {
        return;
      }
      var place := SlotPlace(rid.slot);
      if place.None? {
        ok := false;
        return;
      }
      ghost var pages0, table0 := pages, table;
      var page' := DropFrom(page, place.value);
      ghost var w := Write(rid.page, page, page');
      var written := WriteLogged(rid.page, page');
      TracedSnoc(pages0, [], pages0, w);
      ws := [] + [w];
      if rid.page in chain {
        DropIsDropFrom(page, rid.slot);
        DropInTable(pages0, chain, table0, rid);
        Replace(pages0, headPid, chain, IndexIn(chain, rid.page), page');
        table := table[rid := Free];
      } else {
        OtherPage(pages0, headPid, chain, table, rid.page, page');
      }
    }

    /** `scan`: exactly the row ids in use, each once. */
    method Scan() returns (rids: seq<Rid>)
      requires Valid()
      ensures forall r :: r in rids <==> r in table && table[r].Used?
      ensures Distinct(rids)
    {
      hide TableOn, ChainOn, PageOk, RawAt, SlotCount, NextOf, Lives, Distinct;
      ScanIsTable(pages, headPid, chain, table);
      TailKnown(pages, headPid, chain);
      rids := [];
      var pid := headPid;
      ghost var k := 0;
      while pid != NO_NEXT
        invariant k <= |chain| && pid == if k < |chain| then chain[k] else NO_NEXT
        invariant rids == LivesAll(pages, chain[..k])
        decreases |chain| - k
      {
        LivesAllStep(pages, chain, k);
        ChainNext(pages, headPid, chain, k);
        var more := ScanPage(pages[pid], pid);
        hide LivesAll;
        rids := rids + more;
        pid, k := NextOf(pages[pid]), k + 1;
      }
      assert chain[..k] == chain;
    }

    /** The slots of one page, in order. */
    method ScanPage(page: Page, pid: nat) returns (rids: seq<Rid>)
      requires PageOk(page)
      ensures (forall i :: 0 <= i < SlotCount(page) ==> SlotOffset(i) >= 0) && rids == Lives(page, pid, SlotCount(page))
    {
      SlotsInPage(page);
      rids := [];
      for slot := 0 to SlotCount(page)
        invariant rids == Lives(page, pid, slot)
      {
        if RawAt(page, slot).flag != 0 {
          rids := rids + [Rid(pid, slot)];
        }
      }
    }
  }

  // ----- what a scan yields

  /** The row ids in use among the first n slots of a page. */
  function Lives(p: Page, pid: nat, n: nat): seq<Rid>
    requires forall i :: 0 <= i < n ==> SlotOffset(i) >= 0
  {
    if n == 0 then [] else Lives(p, pid, n - 1) + if RawAt(p, n - 1).flag != 0 then [Rid(pid, n - 1)] else []
  }

  function LivesAll(pages: Pages, chain: seq<nat>): seq<Rid>
    requires forall c | c in chain :: c in pages && PageOk(pages[c])
  {
    if chain == [] then []
    else
      var c := chain[|chain| - 1];
      SlotsInPage(pages[c]);
      LivesAll(pages, chain[..|chain| - 1]) + Lives(pages[c], c, SlotCount(pages[c]))
  }

  lemma SlotsInPage(p: Page)
    requires PageOk(p)
    ensures forall i :: 0 <= i < SlotCount(p) ==> SlotOffset(i) >= 0
  {
  }

  lemma LivesAllStep(pages: Pages, chain: seq<nat>, k: nat)
    requires (forall c | c in chain :: c in pages && PageOk(pages[c])) && k < |chain|
    ensures forall i :: 0 <= i < SlotCount(pages[chain[k]]) ==> SlotOffset(i) >= 0
    ensures LivesAll(pages, chain[..k + 1]) ==
              LivesAll(pages, chain[..k]) + Lives(pages[chain[k]], chain[k], SlotCount(pages[chain[k]]))
  {
    assert chain[..k + 1][..k] == chain[..k];
    SlotsInPage(pages[chain[k]]);
  }

  lemma {:induction false} LivesAre(p: Page, pid: nat, n: nat)
    requires forall i :: 0 <= i < n ==> SlotOffset(i) >= 0
    ensures forall r :: r in Lives(p, pid, n) <==> r.page == pid && r.slot < n && RawAt(p, r.slot).flag != 0
    ensures Distinct(Lives(p, pid, n))
  {
    hide RawAt;
    if n > 0 {
      LivesAre(p, pid, n - 1);
      var a := Lives(p, pid, n - 1);
      assert Lives(p, pid, n) == a + if RawAt(p, n - 1).flag != 0 then [Rid(pid, n - 1)] else [];
      hide Lives;
    }
  }

  lemma {:induction false} LivesAllAre(pages: Pages, chain: seq<nat>)
    requires forall c | c in chain :: c in pages && PageOk(pages[c])
    requires forall i, j :: 0 <= i < j < |chain| ==> chain[i] != chain[j]
    ensures forall r :: r in LivesAll(pages, chain) <==>
              r.page in chain && r.slot < SlotCount(pages[r.page]) && SlotOffset(r.slot) >= 0
                  && RawAt(pages[r.page], r.slot).flag != 0
    ensures Distinct(LivesAll(pages, chain))
  {
    if chain != [] {
      var n := |chain| - 1;
      var rest, c := chain[..n], chain[n];
      LivesAllAre(pages, rest);
      SlotsInPage(pages[c]);
      LivesAre(pages[c], c, SlotCount(pages[c]));
      assert chain == rest + [c] && c !in rest;
      var a, b := LivesAll(pages, rest), Lives(pages[c], c, SlotCount(pages[c]));
      assert LivesAll(pages, chain) == a + b;
      hide RawAt, SlotCount, PageOk, Lives, LivesAll;
      forall r ensures r in a + b <==> r in a || r in b {}
      DistinctAppend(a, b);
    }
  }

  lemma DistinctAppend(a: seq<Rid>, b: seq<Rid>)
    requires Distinct(a) && Distinct(b) && forall r :: !(r in a && r in b)
    ensures Distinct(a + b)
  {
    forall i, j | 0 <= i < j < |a + b| ensures (a + b)[i] != (a + b)[j] {
      if i < |a| && j >= |a| {
        assert a[i] in a && b[j - |a|] in b;
      }
    }
  }

  lemma ScanIsTable(pages: Pages, head: nat, chain: seq<nat>, table: Table)
    requires ChainOn(pages, head, chain) && TableOn(pages, chain, table)
    ensures forall r :: r in LivesAll(pages, chain) <==> r in table && table[r].Used?
    ensures Distinct(LivesAll(pages, chain)) && chain != [] && chain[0] == head && forall k :: 0 <= k < |chain| ==>
              chain[k] < NO_NEXT
    ensures forall c | c in chain :: c in pages && PageOk(pages[c])
  {
    LivesAllAre(pages, chain);
    hide PageOk, SlotCount, RawAt, Distinct, LivesAll;
    forall r ensures r in LivesAll(pages, chain) <==> r in table && table[r].Used? {
      if r.page in chain {
        ReadSlot(pages, chain, table, r);
      }
    }
  }

  lemma TracedNone(pages: Pages)
    ensures Traced(pages, [], pages)
  {
  }

  lemma OnChain(pages: Pages, head: nat, chain: seq<nat>, pid: nat)
    requires ChainOn(pages, head, chain) && pid in chain
    ensures pid in pages && PageOk(pages[pid])
  {
    assert LinkOk(pages, chain, IndexIn(chain, pid));
  }

  /** The slot after the last is no row id yet. */
  lemma NewSlot(pages: Pages, chain: seq<nat>, table: Table, pid: nat)
    requires TableOn(pages, chain, table) && pid in chain
    ensures Rid(pid, SlotCount(pages[pid])) !in table
  {
  }

  lemma ChainBelow(pages: Pages, head: nat, chain: seq<nat>, n: nat)
    requires ChainOn(pages, head, chain) && forall p | p in pages :: p < n
    ensures n !in chain
  {
  }

  lemma ChainPages(pages: Pages, head: nat, chain: seq<nat>)
    requires ChainOn(pages, head, chain)
    ensures forall c | c in chain :: c in pages
  {
  }

  /** On a page of the chain the bytes read as the table says. */
  lemma ReadInTable(pages: Pages, chain: seq<nat>, table: Table, rid: Rid)
    requires TableOn(pages, chain, table) && rid.page in chain
    ensures ReadBytes(pages[rid.page], rid.slot) ==
              if rid in table && table[rid].Used? && table[rid].data != [] then Found(table[rid].data) else Absent
  {
    ReadSlot(pages, chain, table, rid);
    hide TableOn, SlotCount, FromLE;
  }

  lemma DropIsDropFrom(p: Page, i: nat)
    requires SlotOffset(i) >= 0
    ensures Drop(p, i) == DropFrom(p, SlotOffset(i))
  {
  }

  /** A write to a page outside the chain. */
  lemma OtherPage(pages: Pages, head: nat, chain: seq<nat>, table: Table, pid: nat, q: Page)
    requires ChainOn(pages, head, chain) && TableOn(pages, chain, table) && pid !in chain
    ensures ChainOn(pages[pid := q], head, chain) && TableOn(pages[pid := q], chain, table)
  {
    hide PageOk, NextOf, SlotCount, Record;
    var pages' := pages[pid := q];
    forall k | 0 <= k < |chain| ensures chain[k] in pages' && LinkOk(pages', chain, k) {
      assert LinkOk(pages, chain, k) && chain[k] in chain;
    }
  }

  lemma ReadSlot(pages: Pages, chain: seq<nat>, table: Table, rid: Rid)
    requires TableOn(pages, chain, table)
    ensures rid in table <==> rid.page in chain && rid.slot < SlotCount(pages[rid.page])
    ensures rid in table ==>
              && SlotOffset(rid.slot) >= 0 && SlotPlace(rid.slot) == Some(SlotOffset(rid.slot))
              && var p, raw := pages[rid.page], RawAt(pages[rid.page], rid.slot);
              && raw.off + raw.len <= PAGE_SIZE
              && table[rid] == if raw.flag == 0 then Free else Used(p[raw.off..raw.off + raw.len])
  {
    hide SlotCount, RawAt, DataEnd;
    if rid in table {
      assert PageOk(pages[rid.page]);
      assert SlotOk(pages[rid.page], rid.slot);
    }
  }

  /** Too long for a page, short enough for its lengths to be packed: the callback sees it first. */
  predicate RefusedAfterLogging(e: seq<byte>) {
    MAX_RECORD + SLOT_SIZE < |e| < U16 - DATA_START
  }

  /** The three writes of an insertion, on a buffer that grows when the record runs past its end. */
  function Image(p: Page, e: seq<byte>): (d: seq<byte>)
    requires SlotOffset(SlotCount(p)) >= 0 && DataEnd(p) <= PAGE_SIZE
    ensures |d| == if DataEnd(p) + |e| <= PAGE_SIZE then PAGE_SIZE else DataEnd(p) + |e|
  {
    var end, n := DataEnd(p), SlotCount(p);
    var buffer := p[..end] + e + (if end + |e| <= PAGE_SIZE then p[end + |e|..] else []);
    Splice(Splice(buffer, SlotOffset(n), LE(end, 2) + LE(|e|, 2) + [1]),
           0, LE(NextOf(p), 4) + LE(n + 1, 2) + LE(end + |e|, 2))
  }

  lemma ImageIsPut(p: Page, e: seq<byte>)
    requires SlotOffset(SlotCount(p)) >= 0 && DataEnd(p) + |e| <= PAGE_SIZE
    ensures Image(p, e) == Put(p, e)
  {
    hide LE, NextOf, SlotCount, DataEnd;
  }

  lemma RoomFor(p: Page, e: seq<byte>, grown: bool)
    requires PageOk(p)
    requires if grown then SlotCount(p) == 0 && DataEnd(p) == DATA_START else FreeBytes(p) >= SLOT_SIZE + |e|
    ensures SlotOffset(SlotCount(p)) >= 0 && DataEnd(p) <= PAGE_SIZE
    ensures |e| <= MAX_RECORD + SLOT_SIZE ==> DataEnd(p) + |e| <= PAGE_SIZE
    ensures |e| > MAX_RECORD ==> grown
    ensures |e| > MAX_RECORD + SLOT_SIZE ==> DataEnd(p) + |e| > PAGE_SIZE
    ensures |e| <= MAX_RECORD ==> SLOT_SIZE + |e| <= FreeBytes(p)
  {
  }

  lemma ChainNext(pages: Pages, head: nat, chain: seq<nat>, k: nat)
    requires ChainOn(pages, head, chain) && k < |chain|
    ensures NextOf(pages[chain[k]]) == NO_NEXT <==> k + 1 == |chain|
    ensures k + 1 < |chain| ==> NextOf(pages[chain[k]]) == chain[k + 1]
  {
    hide PageOk, NextOf;
    assert LinkOk(pages, chain, k);
  }

  lemma TailKnown(pages: Pages, head: nat, chain: seq<nat>)
    requires ChainOn(pages, head, chain)
    ensures chain != [] && chain[|chain| - 1] in pages
  {
  }

  lemma TwoWrites(pages: Pages, w: Write, w': Write)
    requires w.pid in pages && w'.pid in pages && w.pid != w'.pid
    requires w.before == pages[w.pid] && w'.before == pages[w'.pid] && |w.after| == PAGE_SIZE == |w'.after|
    ensures Traced(pages, [w, w'], pages[w.pid := w.after][w'.pid := w'.after])
  {
    assert [w, w'][1..] == [w'] && [w'][1..] == [];
  }

  // ----- whole runs

  datatype Op = Added(rid: Rid, data: seq<byte>) | Removed(rid: Rid)

  /** One `Insert` or `Delete` on the table, as their contracts give it. */
  ghost predicate Next(t: Table, op: Op, t': Table) {
    match op
    case Added(rid, data) => rid !in t && t' == t[rid := Used(data)]
    case Removed(rid) => t' == if rid in t then t[rid := Free] else t
  }

  /** A run through the tables ts[0], ts[1], ... */
  ghost predicate Run(ts: seq<Table>, ops: seq<Op>) {
    |ts| == |ops| + 1 && forall i :: 0 <= i < |ops| ==> Next(ts[i], ops[i], ts[i + 1])
  }

  /** A row id lives once: after its record was added it reads exactly that record until it is
      removed, and once removed it is empty for ever, whatever is inserted later. */
  lemma {:induction false} SlotsAreNeverReused(ts: seq<Table>, ops: seq<Op>, i: nat, j: nat, rid: Rid)
    requires Run(ts, ops) && i <= j < |ts| && rid in ts[i]
    ensures rid in ts[j]
    ensures ts[i][rid] == Free ==> ts[j][rid] == Free
    ensures (forall k :: i <= k < j ==> ops[k] != Removed(rid)) ==> ts[j][rid] == ts[i][rid]
    ensures (exists k :: i <= k < j && ops[k] == Removed(rid)) ==> ts[j][rid] == Free
    decreases j - i
  {
    if i < j {
      assert Next(ts[i], ops[i], ts[i + 1]);
      SlotsAreNeverReused(ts, ops, i + 1, j, rid);
    }
  }
}
