/** The decoded nodes of `BTreePages` and the page bytes of `NodeCodec` are the same thing: what the
    index writes is what it reads back, and a node is refused exactly when its page overflows. */
module NodeSeam {
  import opened Common
  import opened Paging
  import opened Bytes
  import opened BTreeInsert
  import opened BTreeRep
  import opened NodeCodec

  /** How keys are stored. */
  datatype Coder = Coder(enc: int -> seq<byte>, dec: seq<byte> -> int)

  ghost predicate Codes(c: Coder, keys: seq<int>, w: nat) {
    forall k <- keys :: |c.enc(k)| == w && c.dec(c.enc(k)) == k
  }

  function Encoded(keys: seq<int>, c: Coder): (r: seq<seq<byte>>)
    ensures |r| == |keys| && forall i :: 0 <= i < |keys| ==> r[i] == c.enc(keys[i])
  {
    seq(|keys|, i requires 0 <= i < |keys| => c.enc(keys[i]))
  }

  function DecodedKeys(keys: seq<seq<byte>>, c: Coder): (r: seq<int>)
    ensures |r| == |keys| && forall i :: 0 <= i < |keys| ==> r[i] == c.dec(keys[i])
  {
    seq(|keys|, i requires 0 <= i < |keys| => c.dec(keys[i]))
  }

  lemma KeysBack(keys: seq<int>, c: Coder, w: nat)
    requires Codes(c, keys, w)
    ensures DecodedKeys(Encoded(keys, c), c) == keys
  {
    forall i | 0 <= i < |keys| ensures c.dec(Encoded(keys, c)[i]) == keys[i] {
      assert keys[i] in keys;
    }
  }

  /** Page and slot numbers fit their fields; page 0 is never a node. */
  predicate Addressable(n: PageNode) {
    match n
    case LeafNode(keys, rids, next) =>
      && |rids| == |keys| && (next.Some? ==> 0 < next.value < NodeCodec.NO_NEXT)
      && forall i :: 0 <= i < |rids| ==> rids[i].page < U32 && rids[i].slot < U16
    case InternalNode(keys, children) =>
      |children| == |keys| + 1 && forall i :: 0 <= i < |children| ==> children[i] < U32
  }

  function LeafImageOf(n: PageNode, c: Coder): LeafImage
    requires n.LeafNode?
  {
    LeafImage(Encoded(n.keys, c), n.rids, if n.next.Some? then n.next.value else NodeCodec.NO_NEXT)
  }

  function NodeImageOf(n: PageNode, c: Coder): NodeImage
    requires n.InternalNode?
  {
    NodeImage(Encoded(n.keys, c), n.children)
  }

  /** `_write_leaf` and `_write_internal`. */
  function PageOf(n: PageNode, c: Coder): Packed
    requires Addressable(n)
  {
    if n.LeafNode? then Pack(LeafHead(LeafImageOf(n, c)), LeafCells(LeafImageOf(n, c)))
    else Pack(NodeHead(NodeImageOf(n, c)), NodeCells(NodeImageOf(n, c)))
  }

  /** `_read_node_view`; None where it raises. */
  function NodeAt(page: Page, c: Coder): Option<PageNode> {
    if page[0] == 2 then
      var cs := Cells(page, HEADER_SIZE, FromLE(page[4..6]), 4);
      if cs.None? then None
      else
        var n := NodeOf(cs.value, FromLE(page[8..12]));
        Some(InternalNode(DecodedKeys(n.keys, c), n.children))
    else if page[0] !in {0, 1} then None
    else
      var cs := Cells(page, HEADER_SIZE, FromLE(page[8..10]), 6);
      if cs.None? then None
      else
        CellsStorable(page, HEADER_SIZE, FromLE(page[8..10]), 6);
        var l := LeafOf(cs.value, FromLE(page[4..8]));
        Some(LeafNode(DecodedKeys(l.keys, c), l.rids, if l.next == NodeCodec.NO_NEXT then None else Some(l.next)))
  }

  predicate FitsCaps(n: PageNode, caps: Caps) {
    if n.LeafNode? then |n.keys| <= caps.leaf else |n.keys| <= caps.inner
  }

  /** For keys of one width: the page overflows exactly when the node exceeds its capacity, and a page
      that was written reads back as the node. */
  lemma PageIsNode(n: PageNode, c: Coder, w: nat)
    requires Addressable(n) && Codes(c, n.keys, w) && w <= 0xFFFF
    ensures PageOf(n, c).Packed? <==> FitsCaps(n, CapsFor(w))
    ensures PageOf(n, c).Packed? ==> NodeAt(PageOf(n, c).page, c) == Some(n)
  {
    KeysBack(n.keys, c, w);
    CapsSmall(w);
    if n.LeafNode? {
      LeafSeam(n, c, w);
    } else {
      InternalSeam(n, c, w);
    }
  }

  lemma CapsSmall(w: nat)
    ensures CapsFor(w).leaf < U16 && CapsFor(w).inner < U16
  {
    DivideBound(U16, 8 + w, PAGE_SIZE - HEADER_SIZE);
    DivideBound(U16, 6 + w, PAGE_SIZE - HEADER_SIZE);
    assert U16 * (8 + w) > PAGE_SIZE && U16 * (6 + w) > PAGE_SIZE;
  }

  lemma LeafSeam(n: PageNode, c: Coder, w: nat)
    requires n.LeafNode? && Addressable(n) && Codes(c, n.keys, w) && w <= 0xFFFF && CapsFor(w).leaf < U16
    requires DecodedKeys(Encoded(n.keys, c), c) == n.keys
    ensures PageOf(n, c).Packed? <==> FitsCaps(n, CapsFor(w))
    ensures PageOf(n, c).Packed? ==> NodeAt(PageOf(n, c).page, c) == Some(n)
  {
    var l := LeafImageOf(n, c);
    var cs := LeafCells(l);
    forall x | x in cs ensures |x.key| == w && |x.tail| == 6 {
      var i :| 0 <= i < |cs| && cs[i] == x;
      assert n.keys[i] in n.keys;
    }
    FitsExactly(LeafHead(l), cs, w, true);
    if PageOf(n, c).Packed? {
      hide Pack, LeafHead, LeafCells, Cells, CapsFor, LeafOf, Storable;
      LeafRoundTrip(l);
    }
  }

  lemma InternalSeam(n: PageNode, c: Coder, w: nat)
    requires n.InternalNode? && Addressable(n) && Codes(c, n.keys, w) && w <= 0xFFFF && CapsFor(w).inner < U16
    requires DecodedKeys(Encoded(n.keys, c), c) == n.keys
    ensures PageOf(n, c).Packed? <==> FitsCaps(n, CapsFor(w))
    ensures PageOf(n, c).Packed? ==> NodeAt(PageOf(n, c).page, c) == Some(n)
  {
    var m := NodeImageOf(n, c);
    var cs := NodeCells(m);
    forall x | x in cs ensures |x.key| == w && |x.tail| == 4 {
      var i :| 0 <= i < |cs| && cs[i] == x;
      assert n.keys[i] in n.keys;
      assert cs[i] == Cell(m.keys[i], LE(n.children[i + 1], 4));
    }
    FitsExactly(NodeHead(m), cs, w, false);
    if PageOf(n, c).Packed? {
      hide Pack, NodeHead, NodeCells, Cells, CapsFor, NodeOf;
      NodeRoundTrip(m);
    }
  }
}
