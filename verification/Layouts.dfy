/** Every byte format by its numbers: where each field lies, in which order its bytes come, and what the
    codes are. */
module Layouts {
  import opened Common
  import opened Paging
  import opened Bytes
  import opened BTree
  import opened BTreeDelete
  import BTreeRep
  import Frames
  import HeapPage
  import LogCodec
  import NodeCodec
  import NodeSeam
  import Pager
  import Recovery
  import Wal

  /** A log frame: number and length big-endian around the type byte, the payload, the checksum of all that
      little-endian. */
  lemma LogFrame(r: Wal.Record, crc: Wal.Crc)
    requires Wal.Encodable(r)
    ensures var f, n := Wal.FrameOf(r, crc), |r.payload|;
            && |f| == n + 17
            && FromBE(f[..8]) == r.lsn && f[8] == r.kind && FromBE(f[9..13]) == n && f[13..13 + n] == r.payload
            && FromLE(f[13 + n..]) == crc(f[..13 + n]) as int
  {
    var f, n := Wal.FrameOf(r, crc), |r.payload|;
    Pow256Values();
    FromBEInverts(r.lsn, 8);
    FromBEInverts(n, 4);
    FromLEInverts(crc(Wal.Body(r)) as int, 4);
    hide BE, FromBE, LE, FromLE;
    assert f[..8] == BE(r.lsn, 8) && f[9..13] == BE(n, 4);
    assert f[..13 + n] == Wal.Body(r) && f[13 + n..] == LE(crc(Wal.Body(r)) as int, 4);
  }

  /** The type bytes, and the payload of a page record: transaction, page, the two sizes, the two images. */
  lemma LogRecords(e: Recovery.Entry, lsn: nat)
    requires LogCodec.Storable(e) && lsn < U64
    ensures var r := LogCodec.RecordOf(e, lsn);
            match e
            case Begin(tx) => r.kind == 1 && |r.payload| == 8 && FromBE(r.payload) == tx
            case Commit(tx) => r.kind == 2 && |r.payload| == 8 && FromBE(r.payload) == tx
            case Rollback(tx) => r.kind == 3 && |r.payload| == 8 && FromBE(r.payload) == tx
            case Write(tx, pid, b, a) =>
              && r.kind == 4 && |r.payload| == 8212 && FromBE(r.payload[..8]) == tx && FromBE(r.payload[8..12]) == pid
              && FromBE(r.payload[12..16]) == 4096 && FromBE(r.payload[16..20]) == 4096
              && r.payload[20..4116] == b && r.payload[4116..] == a
            case Other => r.kind == 5 && |r.payload| == 8 && FromBE(r.payload) == lsn
  {
    var s := LogCodec.RecordOf(e, lsn).payload;
    Pow256Values();
    if e.Write? {
      FromBEInverts(e.tx, 8);
      FromBEInverts(e.pid, 4);
      FromBEInverts(PAGE_SIZE, 4);
      hide BE, FromBE;
      SixParts(BE(e.tx, 8), BE(e.pid, 4), BE(PAGE_SIZE, 4), BE(PAGE_SIZE, 4), e.before, e.after);
    } else {
      FromBEInverts(if e.Other? then lsn else e.tx, 8);
      hide BE, FromBE;
    }
  }

  lemma SixParts(a: seq<byte>, b: seq<byte>, c: seq<byte>, d: seq<byte>, x: seq<byte>, y: seq<byte>)
    requires |a| == 8 && |b| == |c| == |d| == 4 && |x| == |y| == 4096
    ensures var s := a + b + c + d + x + y;
            && |s| == 8212 && s[..8] == a && s[8..12] == b && s[12..16] == c && s[16..20] == d
            && s[20..4116] == x && s[4116..] == y
  {
  }

  /** The file header: `T1NYDB01`, version 1, pages of 4096 bytes, then page count, free list and number. */
  lemma FileHeader(p: Page, h: Pager.Header)
    requires Pager.Packable(h)
    ensures var q := Pager.Stamp(p, h);
            && q[..8] == [84, 49, 78, 89, 68, 66, 48, 49] && FromLE(q[8..10]) == 1 && FromLE(q[10..12]) == 4096
            && FromLE(q[12..16]) == h.numPages && FromLE(q[16..20]) == h.freeHead && FromLE(q[20..24]) == h.lastLsn
  {
    Pager.HeaderRoundTrip(p, h);
    hide Pager.Stamp, FromLE;
  }

  /** A blank heap page links nowhere, has no slot, and its data begins at byte 12. */
  lemma BlankHeapPage(p: Page)
    ensures var q := HeapPage.Blank(p);
            FromLE(q[..4]) == 0xFFFF_FFFF && FromLE(q[4..6]) == 0 && FromLE(q[6..8]) == 12
  {
    HeapPage.BlankOk(p);
    var q := HeapPage.Blank(p);
    assert q[..4] == q[0..4];
  }

  /** Slot i is the six bytes that end six times i before the page does: offset, length, flag, one unused. */
  lemma HeapSlot(p: Page, i: nat)
    requires 6 * (i + 1) <= 4096
    ensures var o := 4096 - 6 * (i + 1);
            && HeapPage.SlotOffset(i) == o
            && HeapPage.RawAt(p, i) == HeapPage.Raw(FromLE(p[o..o + 2]), FromLE(p[o + 2..o + 4]), p[o + 4])
  {
  }

  /** A leaf page: type 1, the next leaf, the number of keys, and from byte 12 on the first entry. */
  lemma LeafPage(l: NodeCodec.LeafImage, page: seq<byte>)
    requires NodeCodec.LeafStorable(l) && |l.keys| < U16
    requires NodeCodec.Pack(NodeCodec.LeafHead(l), NodeCodec.LeafCells(l)) == NodeCodec.Packed(page)
    ensures |page| == 4096 && page[0] == 1 && FromLE(page[4..8]) == l.next && FromLE(page[8..10]) == |l.keys|
    ensures |l.keys| == 1 ==>
              var n := |l.keys[0]|;
              && 20 + n <= 4096 && FromLE(page[12..14]) == n && page[14..14 + n] == l.keys[0]
              && FromLE(page[14 + n..18 + n]) == l.rids[0].page && FromLE(page[18 + n..20 + n]) == l.rids[0].slot
  {
    var h, cs := NodeCodec.LeafHead(l), NodeCodec.LeafCells(l);
    assert page[..12] == h;
    LeafStart(l, page);
    hide NodeCodec.LeafHead, LE, FromLE;
    if |l.keys| == 1 {
      OneCell(h, cs, page);
      hide NodeCodec.Pack;
      RidTail(l.rids[0], page, 14 + |l.keys[0]|);
    }
  }

  /** The last leaf's next is written as all ones. */
  lemma LastLeafPage(n: BTreeRep.PageNode, c: NodeSeam.Coder)
    requires n.LeafNode? && n.next.None?
    ensures NodeSeam.LeafImageOf(n, c).next == 0xFFFF_FFFF
  {
  }

  /** A leaf is underfull below 63 entries and has one to spare above; an internal node spares above 64
      children. */
  lemma NodeMinimums(t: Tree, e: Entry)
    requires Shaped(t)
    ensures t.Leaf? && DelT(t, e).removed ==> DelT(t, e).t.Leaf? && (DelT(t, e).under <==> |DelT(t, e).t.l.es| < 63)
    ensures Spare(t) <==> if t.Leaf? then |t.l.es| > 63 else |t.kids| > 64
  {
  }

  lemma LeafStart(l: NodeCodec.LeafImage, page: seq<byte>)
    requires |page| == 4096 && page[..12] == NodeCodec.LeafHead(l) && l.next < U32 && |l.keys| < U16
    ensures page[0] == 1 && FromLE(page[4..8]) == l.next && FromLE(page[8..10]) == |l.keys|
  {
    var h := page[..12];
    Pow256Values();
    FromLEInverts(l.next, 4);
    FromLEInverts(|l.keys|, 2);
    hide LE, FromLE;
    assert page[4..8] == h[4..8] == LE(l.next, 4) && page[8..10] == h[8..10] == LE(|l.keys|, 2);
    assert page[0] == h[0];
  }

  lemma RidTail(r: Rid, page: seq<byte>, o: nat)
    requires r.page < U32 && r.slot < U16 && o + 6 <= |page| && page[o..o + 6] == LE(r.page, 4) + LE(r.slot, 2)
    ensures FromLE(page[o..o + 4]) == r.page && FromLE(page[o + 4..o + 6]) == r.slot
  {
    Pow256Values();
    FromLEInverts(r.page, 4);
    FromLEInverts(r.slot, 2);
    hide LE, FromLE;
    var w := page[o..o + 6];
    assert page[o..o + 4] == w[..4] == LE(r.page, 4);
    assert page[o + 4..o + 6] == w[4..] == LE(r.slot, 2);
  }

  lemma OneCell(h: seq<byte>, cs: seq<NodeCodec.Cell>, page: seq<byte>)
    requires |h| == 12 && |cs| == 1 && NodeCodec.Pack(h, cs) == NodeCodec.Packed(page)
    ensures var n, m := |cs[0].key|, |cs[0].tail|;
            && 14 + n + m <= 4096 && FromLE(page[12..14]) == n && page[14..14 + n] == cs[0].key
            && page[14 + n..14 + n + m] == cs[0].tail
  {
    var c := cs[0];
    assert NodeCodec.Payload(cs) == NodeCodec.CellBytes(c) by {
      assert cs[..0] == [] && NodeCodec.Payload([]) == [];
    }
    assert |c.key| <= 0xFFFF by {
      assert cs[..0] == [] && NodeCodec.Payload([]) == [];
    }
    Pow256Values();
    FromLEInverts(|c.key|, 2);
    hide LE, FromLE, NodeCodec.Payload;
    var b := NodeCodec.CellBytes(c);
    assert page[12..12 + |b|] == b;
    hide NodeCodec.Pack, NodeCodec.CellBytes;
    CellParts(page, LE(|c.key|, 2), c.key, c.tail);
  }

  lemma CellParts(page: seq<byte>, a: seq<byte>, key: seq<byte>, tail: seq<byte>)
    requires |a| == 2 && 14 + |key| + |tail| <= |page| && page[12..14 + |key| + |tail|] == a + key + tail
    ensures var n, m := |key|, |tail|;
            page[12..14] == a && page[14..14 + n] == key && page[14 + n..14 + n + m] == tail
  {
    var n, m, w := |key|, |tail|, a + key + tail;
    assert page[12..14] == w[..2] && page[14..14 + n] == w[2..2 + n] && page[14 + n..14 + n + m] == w[2 + n..];
  }

  /** An internal page: type 2, the number of keys, the first child, and from byte 12 on keys and children. */
  lemma InternalPage(n: NodeCodec.NodeImage, page: seq<byte>)
    requires NodeCodec.NodeStorable(n) && |n.keys| < U16
    requires NodeCodec.Pack(NodeCodec.NodeHead(n), NodeCodec.NodeCells(n)) == NodeCodec.Packed(page)
    ensures |page| == 4096 && page[0] == 2 && FromLE(page[4..6]) == |n.keys| && FromLE(page[8..12]) == n.children[0]
    ensures |n.keys| == 1 ==>
              var k := |n.keys[0]|;
              && 18 + k <= 4096 && FromLE(page[12..14]) == k && page[14..14 + k] == n.keys[0]
              && FromLE(page[14 + k..18 + k]) == n.children[1]
  {
    var h, cs := NodeCodec.NodeHead(n), NodeCodec.NodeCells(n);
    assert page[..12] == h;
    InternalStart(n, page);
    hide NodeCodec.NodeHead;
    if |n.keys| == 1 {
      OneCell(h, cs, page);
      Pow256Values();
      FromLEInverts(n.children[1], 4);
      hide LE, FromLE, NodeCodec.Pack;
    }
  }

  lemma InternalStart(n: NodeCodec.NodeImage, page: seq<byte>)
    requires |page| == 4096 && n.children != [] && page[..12] == NodeCodec.NodeHead(n)
    requires n.children[0] < U32 && |n.keys| < U16
    ensures page[0] == 2 && FromLE(page[4..6]) == |n.keys| && FromLE(page[8..12]) == n.children[0]
  {
    var h := page[..12];
    Pow256Values();
    FromLEInverts(|n.keys|, 2);
    FromLEInverts(n.children[0], 4);
    hide LE, FromLE;
    assert page[4..6] == h[4..6] == LE(|n.keys|, 2) && page[8..12] == h[8..12] == LE(n.children[0], 4);
    assert page[0] == h[0];
  }

  /** A wire frame: length big-endian, type, flags, payload. */
  lemma WireFrame(f: Frames.Frame)
    requires Frames.Encode(f).Some?
    ensures var d := Frames.Encode(f).value;
            FromBE(d[..4]) == |f.payload| && d[4] == f.kind && d[5] == f.flags && d[6..] == f.payload
  {
    Frames.HeaderReads(f, []);
    assert Frames.ToBytes(f) + [] == Frames.ToBytes(f);
  }
}
