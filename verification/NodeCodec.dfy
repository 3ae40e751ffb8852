/** Index nodes as 4096-byte pages: header, then cells of [u16 key length][key][fixed tail]. The tail is
    a row id in a leaf and a child page id in an internal node. Keys are taken already encoded. */
module NodeCodec {
  import opened Common
  import opened Paging
  import opened Bytes
  import opened BTreeInsert

  const HEADER_SIZE: nat := 12
  const NO_NEXT: nat := 0xFFFF_FFFF

  datatype Cell = Cell(key: seq<byte>, tail: seq<byte>)

  datatype Packed = Packed(page: seq<byte>) | Overflow | KeyTooLong

  function CellBytes(c: Cell): (r: seq<byte>)
    ensures |r| == 2 + |c.key| + |c.tail|
  {
    LE(|c.key|, 2) + c.key + c.tail
  }

  function Payload(cs: seq<Cell>): seq<byte> {
    if cs == [] then [] else Payload(cs[..|cs| - 1]) + CellBytes(cs[|cs| - 1])
  }

  lemma {:induction false} PayloadGrows(cs: seq<Cell>, n: nat)
    requires n <= |cs|
    ensures |Payload(cs[..n])| <= |Payload(cs)|
    ensures n < |cs| ==> |Payload(cs[..n + 1])| == |Payload(cs[..n])| + |CellBytes(cs[n])| <= |Payload(cs)|
    decreases |cs| - n
  {
    if n < |cs| {
      assert cs[..n + 1][..n] == cs[..n];
      PayloadGrows(cs, n + 1);
    } else {
      assert cs[..n] == cs;
    }
  }

  lemma PayloadSnoc(cs: seq<Cell>, i: nat)
    requires i < |cs|
    ensures Payload(cs[..i + 1]) == Payload(cs[..i]) + CellBytes(cs[i])
  {
    assert cs[..i + 1][..i] == cs[..i];
  }

  /** What the packing loop makes of a page whose header is written. */
  function Pack(head: seq<byte>, cs: seq<Cell>): (r: Packed)
    requires |head| == HEADER_SIZE
    ensures r.Packed? ==> |r.page| == PAGE_SIZE
  {
    if exists i ::
          0 <= i < |cs| && |cs[i].key| > 0xFFFF && HEADER_SIZE + |Payload(cs[..i])| <= PAGE_SIZE then KeyTooLong
    else if HEADER_SIZE + |Payload(cs)| > PAGE_SIZE then Overflow
    else Packed(head + Payload(cs) + Zeros(PAGE_SIZE - HEADER_SIZE - |Payload(cs)|))
  }

  /** The offset loop shared by `_write_leaf` and `_write_internal`. */
  method PackCells(head: seq<byte>, cs: seq<Cell>) returns (r: Packed)
    requires |head| == HEADER_SIZE
    ensures r == Pack(head, cs)
  {
    var page := Splice(Zeros(PAGE_SIZE), 0, head);
    var offset := HEADER_SIZE;
    assert page == head + Payload(cs[..0]) + Zeros(PAGE_SIZE - HEADER_SIZE);
    for i := 0 to |cs|
      invariant offset == HEADER_SIZE + |Payload(cs[..i])| <= PAGE_SIZE
      invariant page == head + Payload(cs[..i]) + Zeros(PAGE_SIZE - offset)
      invariant forall j :: 0 <= j < i ==> |cs[j].key| <= 0xFFFF
    {
      PayloadGrows(cs, i);
      hide Payload, CellBytes;
      if |cs[i].key| > 0xFFFF {
        return KeyTooLong;
      }
      var needed := 2 + |cs[i].key| + |cs[i].tail|;
      if offset + needed > PAGE_SIZE {
        NoLongKeyBefore(cs, i);
        return Overflow;
      }
      PayloadSnoc(cs, i);
      PutCell(head + Payload(cs[..i]), PAGE_SIZE - offset, CellBytes(cs[i]));
      Regroup(head, Payload(cs[..i]), CellBytes(cs[i]), []);
      page := Splice(page, offset, CellBytes(cs[i]));
      offset := offset + needed;
    }
    assert cs[..|cs|] == cs;
    r := Packed(page);
  }

  lemma PutCell(done: seq<byte>, room: nat, d: seq<byte>)
    requires |d| <= room
    ensures Splice(done + Zeros(room), |done|, d) == (done + d) + Zeros(room - |d|)
  {
  }

  /** Once cell i overflows, no later cell is looked at. */
  lemma {:induction false} NoLongKeyBefore(cs: seq<Cell>, i: nat)
    requires i < |cs| && HEADER_SIZE + |Payload(cs[..i + 1])| > PAGE_SIZE
    ensures forall j :: i < j < |cs| ==> HEADER_SIZE + |Payload(cs[..j])| > PAGE_SIZE
    ensures HEADER_SIZE + |Payload(cs)| > PAGE_SIZE
  {
    forall j | i < j <= |cs| ensures HEADER_SIZE + |Payload(cs[..j])| > PAGE_SIZE {
      assert cs[..j][..i + 1] == cs[..i + 1];
      PayloadGrows(cs[..j], i + 1);
    }
    assert cs[..|cs|] == cs;
  }

  // ----- reading

  /** n cells from `off` on, with tails of `tw` bytes; None where the reader runs off the page. */
  function Cells(page: seq<byte>, off: nat, n: nat, tw: nat): Option<seq<Cell>>
    decreases n
  {
    if n == 0 then Some([])
    else if off + 2 > |page| then None
    else
      var len := FromLE(page[off..off + 2]);
      if off + 2 + len + tw > |page| then None
      else
        Prepend([CellIn(page, off, len, tw)], Cells(page, off + 2 + len + tw, n - 1, tw))
  }

  function CellIn(page: seq<byte>, off: nat, len: nat, tw: nat): Cell
    requires off + 2 + len + tw <= |page|
  {
    Cell(page[off + 2..off + 2 + len], page[off + 2 + len..off + 2 + len + tw])
  }

  function Prepend(cs: seq<Cell>, rest: Option<seq<Cell>>): Option<seq<Cell>> {
    if rest.None? then None else Some(cs + rest.value)
  }

  lemma PrependNothing(rest: Option<seq<Cell>>)
    ensures Prepend([], rest) == rest
  {
    if rest.Some? {
      assert [] + rest.value == rest.value;
    }
  }

  lemma PrependMore(out: seq<Cell>, c: Cell, rest: Option<seq<Cell>>)
    ensures Prepend(out, Prepend([c], rest)) == Prepend(out + [c], rest)
  {
    if rest.Some? {
      assert out + ([c] + rest.value) == (out + [c]) + rest.value;
    }
  }

  /** The read loop shared by `_read_leaf_from_bytes` and `_read_internal_from_bytes`. */
  method ReadCells(page: seq<byte>, count: nat, tw: nat) returns (r: Option<seq<Cell>>)
    ensures r == Cells(page, HEADER_SIZE, count, tw)
  {
    var offset: nat, out: seq<Cell> := HEADER_SIZE, [];
    PrependNothing(Cells(page, HEADER_SIZE, count, tw));
    for i := 0 to count
      invariant Cells(page, HEADER_SIZE, count, tw) == Prepend(out, Cells(page, offset, count - i, tw))
    {
      if offset + 2 > |page| {
        return None;
      }
      var len := FromLE(page[offset..offset + 2]);
      if offset + 2 + len + tw > |page| {
        return None;
      }
      PrependMore(out, CellIn(page, offset, len, tw), Cells(page, offset + 2 + len + tw, count - i - 1, tw));
      out := out + [CellIn(page, offset, len, tw)];
      offset := offset + 2 + len + tw;
    }
    assert out + [] == out;
    r := Some(out);
  }

  predicate Storable(cs: seq<Cell>, tw: nat) {
    forall c <- cs :: |c.key| <= 0xFFFF && |c.tail| == tw
  }

  /** Cells written anywhere read back. */
  lemma {:induction false} CellsInvert(a: seq<byte>, cs: seq<Cell>, b: seq<byte>, tw: nat)
    requires Storable(cs, tw)
    ensures Cells(a + Payload(cs) + b, |a|, |cs|, tw) == Some(cs)
    decreases |cs|
  {
    if cs != [] {
      var c, rest := cs[0], cs[1..];
      calc {
        Cells(a + Payload(cs) + b, |a|, |cs|, tw);
      ==  { assert cs == [c] + rest; PayloadCons(c, rest); Regroup(a, CellBytes(c), Payload(rest), b); }
        Cells(a + CellBytes(c) + (Payload(rest) + b), |a|, |rest| + 1, tw);
      ==  { FirstCell(a, c, Payload(rest) + b, |rest|, tw); Regroup(a, CellBytes(c), Payload(rest), b); }
        Prepend([c], Cells((a + CellBytes(c)) + Payload(rest) + b, |a + CellBytes(c)|, |rest|, tw));
      ==  { CellsInvert(a + CellBytes(c), rest, b, tw); }
        Prepend([c], Some(rest));
      ==  { assert [c] + rest == cs; }
        Some(cs);
      }
    }
  }

  lemma FirstCell(a: seq<byte>, c: Cell, b: seq<byte>, n: nat, tw: nat)
    requires |c.key| <= 0xFFFF && |c.tail| == tw
    ensures var page := a + CellBytes(c) + b;
            Cells(page, |a|, n + 1, tw) == Prepend([c], Cells(page, |a + CellBytes(c)|, n, tw))
  {
    CellAt(a, c, b);
    hide FromLE, CellBytes;
  }

  lemma Regroup(a: seq<byte>, x: seq<byte>, y: seq<byte>, b: seq<byte>)
    ensures a + (x + y) + b == (a + x) + y + b == a + x + (y + b)
    ensures (a + x) + y == a + (x + y)
  {
  }

  lemma CellAt(a: seq<byte>, c: Cell, b: seq<byte>)
    requires |c.key| <= 0xFFFF
    ensures var page, off, len := a + CellBytes(c) + b, |a|, |c.key|;
            && page[off..off + 2] == LE(len, 2) && FromLE(page[off..off + 2]) == len
            && page[off + 2..off + 2 + len] == c.key
            && page[off + 2 + len..off + 2 + len + |c.tail|] == c.tail
  {
    var page, off, len := a + CellBytes(c) + b, |a|, |c.key|;
    Pow256Values();
    FromLEInverts(len, 2);
    assert page[off..off + 2] == LE(len, 2);
  }

  lemma {:induction false} PayloadCons(c: Cell, cs: seq<Cell>)
    ensures Payload([c] + cs) == CellBytes(c) + Payload(cs)
    decreases |cs|
  {
    var all := [c] + cs;
    if cs == [] {
      assert all == [c] && all[..0] == [];
    } else {
      var n := |cs| - 1;
      calc {
        Payload(all);
      ==  { assert all[..|all| - 1] == [c] + cs[..n] && all[|all| - 1] == cs[n]; }
        Payload([c] + cs[..n]) + CellBytes(cs[n]);
      ==  { PayloadCons(c, cs[..n]); }
        (CellBytes(c) + Payload(cs[..n])) + CellBytes(cs[n]);
      ==
        CellBytes(c) + (Payload(cs[..n]) + CellBytes(cs[n]));
      }
    }
  }

  // ----- leaves

  /** `next` is the raw field, NO_NEXT at the tail. */
  datatype LeafImage = LeafImage(keys: seq<seq<byte>>, rids: seq<Rid>, next: nat)

  predicate LeafStorable(l: LeafImage) {
    && |l.keys| == |l.rids| && l.next < U32
    && forall i :: 0 <= i < |l.rids| ==> l.rids[i].page < U32 && l.rids[i].slot < U16
  }

  function LeafCells(l: LeafImage): (cs: seq<Cell>)
    requires |l.keys| == |l.rids|
    ensures |cs| == |l.keys|
  {
    seq(|l.keys|, i requires 0 <= i < |l.keys| => Cell(l.keys[i], LE(l.rids[i].page, 4) + LE(l.rids[i].slot, 2)))
  }

  function LeafHead(l: LeafImage): (h: seq<byte>)
    ensures |h| == HEADER_SIZE
  {
    [1, 0, 0, 0] + LE(l.next, 4) + LE(|l.keys|, 2) + [0, 0]
  }

  method WriteLeaf(l: LeafImage) returns (r: Packed)
    requires LeafStorable(l)
    ensures r == Pack(LeafHead(l), LeafCells(l))
  {
    r := PackCells(LeafHead(l), LeafCells(l));
  }

  function LeafOf(cs: seq<Cell>, next: nat): LeafImage
    requires Storable(cs, 6)
  {
    LeafImage(seq(|cs|, i requires 0 <= i < |cs| => cs[i].key),
              seq(|cs|, i requires 0 <= i < |cs| => Rid(FromLE(cs[i].tail[..4]), FromLE(cs[i].tail[4..]))),
              if next == 0 then NO_NEXT else next)
  }

  lemma {:induction false} CellsStorable(page: seq<byte>, off: nat, n: nat, tw: nat)
    requires Cells(page, off, n, tw).Some?
    ensures |Cells(page, off, n, tw).value| == n && Storable(Cells(page, off, n, tw).value, tw)
    decreases n
  {
    if n > 0 {
      var len := FromLE(page[off..off + 2]);
      Pow256Values();
      LEInverts(page[off..off + 2]);
      CellsStorable(page, off + 2 + len + tw, n - 1, tw);
    }
  }

  /** `_read_leaf_from_bytes`; None where it raises. */
  method ReadLeaf(page: seq<byte>) returns (r: Option<LeafImage>)
    requires |page| == PAGE_SIZE
    ensures r.Some? <==> page[0] in {0, 1} && Cells(page, HEADER_SIZE, FromLE(page[8..10]), 6).Some?
    ensures r.Some? ==>
              var cs := Cells(page, HEADER_SIZE, FromLE(page[8..10]), 6).value;
              Storable(cs, 6) && r.value == LeafOf(cs, FromLE(page[4..8]))
  {
    if page[0] !in {0, 1} {
      return None;
    }
    var cs := ReadCells(page, FromLE(page[8..10]), 6);
    if cs.None? {
      return None;
    }
    CellsStorable(page, HEADER_SIZE, FromLE(page[8..10]), 6);
    r := Some(LeafOf(cs.value, FromLE(page[4..8])));
  }

  lemma LeafCellsInvert(l: LeafImage)
    requires LeafStorable(l) && forall i :: 0 <= i < |l.keys| ==> |l.keys[i]| <= 0xFFFF
    ensures Storable(LeafCells(l), 6)
    ensures LeafOf(LeafCells(l), l.next) == if l.next == 0 then l.(next := NO_NEXT) else l
  {
    var cs := LeafCells(l);
    Pow256Values();
    forall i | 0 <= i < |cs| ensures Rid(FromLE(cs[i].tail[..4]), FromLE(cs[i].tail[4..])) == l.rids[i] {
      FromLEInverts(l.rids[i].page, 4);
      FromLEInverts(l.rids[i].slot, 2);
      assert cs[i].tail[..4] == LE(l.rids[i].page, 4) && cs[i].tail[4..] == LE(l.rids[i].slot, 2);
    }
    assert LeafOf(cs, l.next).keys == l.keys;
    assert LeafOf(cs, l.next).rids == l.rids;
  }

  /** A leaf that was written reads back, except that a zero `next` comes back as NO_NEXT. */
  lemma LeafRoundTrip(l: LeafImage)
    requires LeafStorable(l) && |l.keys| < U16 && Pack(LeafHead(l), LeafCells(l)).Packed?
    ensures var page := Pack(LeafHead(l), LeafCells(l)).page;
            var cs := Cells(page, HEADER_SIZE, FromLE(page[8..10]), 6);
            && page[0] == 1 && cs.Some? && Storable(cs.value, 6)
            && LeafOf(cs.value, FromLE(page[4..8])) == if l.next == 0 then l.(next := NO_NEXT) else l
  {
    var cs := LeafCells(l);
    KeysShort(LeafHead(l), cs);
    forall i | 0 <= i < |l.keys| ensures |l.keys[i]| <= 0xFFFF {
      assert cs[i].key == l.keys[i];
    }
    LeafCellsInvert(l);
    var pad := Zeros(PAGE_SIZE - HEADER_SIZE - |Payload(cs)|);
    LeafHeadReads(l, Payload(cs), pad);
    hide LeafHead, LeafCells, LeafOf, FromLE, Payload;
    CellsInvert(LeafHead(l), cs, pad, 6);
  }

  lemma LeafHeadReads(l: LeafImage, x: seq<byte>, y: seq<byte>)
    requires l.next < U32 && |l.keys| < U16
    ensures var page := LeafHead(l) + x + y;
            page[0] == 1 && FromLE(page[4..8]) == l.next && FromLE(page[8..10]) == |l.keys|
  {
    var page := LeafHead(l) + x + y;
    assert page[4..8] == LE(l.next, 4) && page[8..10] == LE(|l.keys|, 2);
    Pow256Values();
    FromLEInverts(l.next, 4);
    FromLEInverts(|l.keys|, 2);
  }

  lemma KeysShort(head: seq<byte>, cs: seq<Cell>)
    requires |head| == HEADER_SIZE && Pack(head, cs).Packed?
    ensures forall i :: 0 <= i < |cs| ==> |cs[i].key| <= 0xFFFF
  {
    forall i | 0 <= i < |cs| ensures |cs[i].key| <= 0xFFFF {
      PayloadGrows(cs, i);
    }
  }

  // ----- internal nodes

  datatype NodeImage = NodeImage(keys: seq<seq<byte>>, children: seq<nat>)

  predicate NodeStorable(n: NodeImage) {
    |n.children| == |n.keys| + 1 && forall i :: 0 <= i < |n.children| ==> n.children[i] < U32
  }

  function NodeCells(n: NodeImage): (cs: seq<Cell>)
    requires |n.children| == |n.keys| + 1
    ensures |cs| == |n.keys|
  {
    seq(|n.keys|, i requires 0 <= i < |n.keys| => Cell(n.keys[i], LE(n.children[i + 1], 4)))
  }

  function NodeHead(n: NodeImage): (h: seq<byte>)
    requires n.children != []
    ensures |h| == HEADER_SIZE
  {
    [2, 0, 0, 0] + LE(|n.keys|, 2) + [0, 0] + LE(n.children[0], 4)
  }

  method WriteInternal(n: NodeImage) returns (r: Packed)
    requires NodeStorable(n)
    ensures r == Pack(NodeHead(n), NodeCells(n))
  {
    r := PackCells(NodeHead(n), NodeCells(n));
  }

  function NodeOf(cs: seq<Cell>, first: nat): NodeImage {
    NodeImage(seq(|cs|, i requires 0 <= i < |cs| => cs[i].key),
              [first] + seq(|cs|, i requires 0 <= i < |cs| => FromLE(cs[i].tail)))
  }

  /** `_read_internal_from_bytes`; None where it raises. */
  method ReadInternal(page: seq<byte>) returns (r: Option<NodeImage>)
    requires |page| == PAGE_SIZE
    ensures r.Some? <==> page[0] == 2 && Cells(page, HEADER_SIZE, FromLE(page[4..6]), 4).Some?
    ensures r.Some? ==> r.value == NodeOf(Cells(page, HEADER_SIZE, FromLE(page[4..6]), 4).value, FromLE(page[8..12]))
  {
    if page[0] != 2 {
      return None;
    }
    var cs := ReadCells(page, FromLE(page[4..6]), 4);
    r := if cs.None? then None else Some(NodeOf(cs.value, FromLE(page[8..12])));
  }

  lemma NodeRoundTrip(n: NodeImage)
    requires NodeStorable(n) && |n.keys| < U16 && Pack(NodeHead(n), NodeCells(n)).Packed?
    ensures var page := Pack(NodeHead(n), NodeCells(n)).page;
            var cs := Cells(page, HEADER_SIZE, FromLE(page[4..6]), 4);
            page[0] == 2 && cs.Some? && NodeOf(cs.value, FromLE(page[8..12])) == n
  {
    var cs := NodeCells(n);
    KeysShort(NodeHead(n), cs);
    forall c | c in cs ensures |c.key| <= 0xFFFF && |c.tail| == 4 {
      var i :| 0 <= i < |cs| && cs[i] == c;
      assert cs[i] == Cell(n.keys[i], LE(n.children[i + 1], 4));
    }
    NodeCellsInvert(n);
    var pad := Zeros(PAGE_SIZE - HEADER_SIZE - |Payload(cs)|);
    NodeHeadReads(n, Payload(cs), pad);
    hide NodeHead, NodeCells, NodeOf, FromLE, Payload;
    CellsInvert(NodeHead(n), cs, pad, 4);
  }

  lemma NodeHeadReads(n: NodeImage, x: seq<byte>, y: seq<byte>)
    requires NodeStorable(n) && |n.keys| < U16
    ensures var page := NodeHead(n) + x + y;
            page[0] == 2 && FromLE(page[4..6]) == |n.keys| && FromLE(page[8..12]) == n.children[0]
  {
    var page := NodeHead(n) + x + y;
    assert page[4..6] == LE(|n.keys|, 2) && page[8..12] == LE(n.children[0], 4);
    Pow256Values();
    FromLEInverts(n.children[0], 4);
    FromLEInverts(|n.keys|, 2);
  }

  lemma NodeCellsInvert(n: NodeImage)
    requires NodeStorable(n)
    ensures NodeOf(NodeCells(n), n.children[0]) == n
  {
    var cs := NodeCells(n);
    Pow256Values();
    forall i | 0 <= i < |cs| ensures FromLE(cs[i].tail) == n.children[i + 1] {
      FromLEInverts(n.children[i + 1], 4);
    }
    var r := NodeOf(cs, n.children[0]);
    assert r.keys == n.keys;
    assert r.children == n.children;
  }

  // ----- page capacity for keys of one width

  predicate Uniform(cs: seq<Cell>, w: nat, tw: nat) {
    forall c <- cs :: |c.key| == w && |c.tail| == tw
  }

  lemma {:induction false} UniformSize(cs: seq<Cell>, w: nat, tw: nat)
    requires Uniform(cs, w, tw)
    ensures |Payload(cs)| == |cs| * (2 + w + tw)
    decreases |cs|
  {
    if cs != [] {
      var n := |cs| - 1;
      assert forall c <- cs[..n] :: c in cs;
      assert cs[n] in cs;
      UniformSize(cs[..n], w, tw);
      OneMore(n, 2 + w + tw);
    }
  }

  lemma OneMore(n: nat, d: nat)
    ensures (n + 1) * d == n * d + d
  {
  }

  function CapsFor(w: nat): Caps {
    Caps((PAGE_SIZE - HEADER_SIZE) / (8 + w), (PAGE_SIZE - HEADER_SIZE) / (6 + w))
  }

  lemma DivideBound(n: nat, d: nat, m: nat)
    requires d > 0
    ensures n * d <= m <==> n <= m / d
  {
    var q := m / d;
    assert m == q * d + m % d;
    if n <= q {
      assert n * d <= q * d;
    } else {
      assert n * d >= (q + 1) * d;
    }
  }

  /** With keys of w bytes, a leaf overflows exactly past CapsFor(w).leaf entries and an internal node
      exactly past CapsFor(w).inner separators. */
  lemma FitsExactly(head: seq<byte>, cs: seq<Cell>, w: nat, leaf: bool)
    requires |head| == HEADER_SIZE && w <= 0xFFFF && Uniform(cs, w, if leaf then 6 else 4)
    ensures Pack(head, cs).Packed? <==> |cs| <= if leaf then CapsFor(w).leaf else CapsFor(w).inner
    ensures !Pack(head, cs).KeyTooLong?
  {
    var tw := if leaf then 6 else 4;
    UniformSize(cs, w, tw);
    DivideBound(|cs|, 2 + w + tw, PAGE_SIZE - HEADER_SIZE);
    forall i | 0 <= i < |cs| ensures |cs[i].key| <= 0xFFFF {
      assert cs[i] in cs;
    }
  }

  /** Merged nodes are sure to fit a page exactly for keys of at most 24 bytes; an INT key has 9. */
  lemma RoomyExactly(w: nat)
    ensures Roomy(CapsFor(w)) <==> w <= 24
    ensures CapsFor(9) == Caps(240, 272)
  {
    DivideBound(125, 8 + w, 4084);
    DivideBound(126, 6 + w, 4084);
  }
}
