/** The write-ahead log: an append-only file of checksummed frames

      lsn (u64 BE) | type (u8) | payload_len (u32 BE) | payload | crc32 (u32 LE)

    The checksum is a parameter: everything holds for every function from bytes to u32. */
module Wal {
  import opened Common
  import opened Bytes

  const HEADER_SIZE: nat := 13
  const CRC_SIZE: nat := 4

  const RT_BEGIN: byte := 1
  const RT_COMMIT: byte := 2
  const RT_ROLLBACK: byte := 3
  const RT_PAGE: byte := 4
  const RT_CKPT: byte := 5

  type Crc = seq<byte> -> u32

  datatype Record = Record(lsn: nat, kind: byte, payload: seq<byte>)

  /** What `struct.pack(">QBI", ...)` accepts. */
  predicate Packable(lsn: nat, payload: seq<byte>) {
    lsn < U64 && |payload| < U32
  }

  predicate Encodable(r: Record) {
    Packable(r.lsn, r.payload)
  }

  function Header(lsn: nat, kind: byte, len: nat): (h: seq<byte>)
    ensures |h| == HEADER_SIZE
  {
    BE(lsn, 8) + [kind] + BE(len, 4)
  }

  function Body(r: Record): seq<byte> {
    Header(r.lsn, r.kind, |r.payload|) + r.payload
  }

  function FrameOf(r: Record, crc: Crc): (f: seq<byte>)
    ensures |f| == HEADER_SIZE + |r.payload| + CRC_SIZE
  {
    Body(r) + LE(crc(Body(r)), 4)
  }

  /** The file holding exactly the frames of `rs`, in order. */
  function FileOf(rs: seq<Record>, crc: Crc): seq<byte> {
    if rs == [] then [] else FrameOf(rs[0], crc) + FileOf(rs[1..], crc)
  }

  /** A log written by `append` alone: frames fit their fields and carry LSNs from, from+1, ... */
  predicate Numbered(rs: seq<Record>, from: nat) {
    forall i :: 0 <= i < |rs| ==> Encodable(rs[i]) && rs[i].lsn == from + i
  }

  // ----- reading

  datatype Parse =
    | End                                    // no bytes left, or a torn tail
    | Corrupt                                // a complete frame whose checksum is wrong
    | Good(rec: Record, size: nat)

  /** One iteration of the read loops, at the front of `s`. */
  function ParseFrame(s: seq<byte>, crc: Crc): (p: Parse)
    ensures p.Good? ==> 0 < p.size <= |s|
  {
    if |s| < HEADER_SIZE then End
    else
      var len := FromBE(s[9..13]);
      if |s| < HEADER_SIZE + len + CRC_SIZE then End
      else if crc(s[..HEADER_SIZE + len]) != FromLE(s[HEADER_SIZE + len..HEADER_SIZE + len + CRC_SIZE]) then Corrupt
      else Good(Record(FromBE(s[..8]), s[8], s[HEADER_SIZE..HEADER_SIZE + len]), HEADER_SIZE + len + CRC_SIZE)
  }

  datatype Scan = Scan(records: seq<Record>, corrupt: bool)

  /** What iterating the whole file yields. */
  function ScanAll(s: seq<byte>, crc: Crc): Scan
    decreases |s|
  {
    match ParseFrame(s, crc)
    case End => Scan([], false)
    case Corrupt => Scan([], true)
    case Good(r, n) =>
      var rest := ScanAll(s[n..], crc);
      Scan([r] + rest.records, rest.corrupt)
  }

  function From(rs: seq<Record>, lsn: int): seq<Record> {
    if rs == [] then []
    else if rs[0].lsn >= lsn then [rs[0]] + From(rs[1..], lsn)
    else From(rs[1..], lsn)
  }

  /** The LSN a reopened log assigns next, starting its walk at `next`. */
  function RecoverFrom(s: seq<byte>, crc: Crc, next: nat): nat
    decreases |s|
  {
    match ParseFrame(s, crc)
    case Good(r, n) => if r.lsn != next then next else RecoverFrom(s[n..], crc, next + 1)
    case _ => next
  }

  // ----- a frame read back

  lemma FrameParses(r: Record, crc: Crc, tail: seq<byte>)
    requires Encodable(r)
    ensures ParseFrame(FrameOf(r, crc) + tail, crc) == Good(r, |FrameOf(r, crc)|)
  {
    var s := FrameOf(r, crc) + tail;
    var n := |r.payload|;
    Pow256Values();
    FromBEInverts(r.lsn, 8);
    FromBEInverts(n, 4);
    FromLEInverts(crc(Body(r)), 4);
    assert s[..8] == BE(r.lsn, 8);
    assert s[8] == r.kind;
    assert s[9..13] == BE(n, 4);
    assert s[13..13 + n] == r.payload;
    assert s[..13 + n] == Body(r);
    assert s[13 + n..17 + n] == LE(crc(Body(r)), 4);
  }

  lemma FrameThenRest(r: Record, crc: Crc, tail: seq<byte>)
    requires Encodable(r)
    ensures var rest := ScanAll(tail, crc);
            ScanAll(FrameOf(r, crc) + tail, crc) == Scan([r] + rest.records, rest.corrupt)
    ensures RecoverFrom(FrameOf(r, crc) + tail, crc, r.lsn) == RecoverFrom(tail, crc, r.lsn + 1)
  {
    FrameParses(r, crc, tail);
    hide ParseFrame, FrameOf;
    assert (FrameOf(r, crc) + tail)[|FrameOf(r, crc)|..] == tail;
  }

  /** A frame cut anywhere before its last byte is a torn tail, never a corrupt frame. */
  lemma TornFrameEnds(r: Record, crc: Crc, k: nat)
    requires Encodable(r)
    requires k < |FrameOf(r, crc)|
    ensures ParseFrame(FrameOf(r, crc)[..k], crc) == End
  {
    var s := FrameOf(r, crc)[..k];
    if k >= HEADER_SIZE {
      Pow256Values();
      FromBEInverts(|r.payload|, 4);
      assert s[9..13] == BE(|r.payload|, 4);
    }
  }

  /** How many whole frames the first `k` bytes of the file hold. */
  function WholeFrames(rs: seq<Record>, crc: Crc, k: nat): (m: nat)
    ensures m <= |rs|
  {
    if rs == [] || k < |FrameOf(rs[0], crc)| then 0
    else 1 + WholeFrames(rs[1..], crc, k - |FrameOf(rs[0], crc)|)
  }

  /** `WholeFrames` is what its name says: the frames before it fit, the next one does not. */
  lemma {:induction false} WholeFramesExact(rs: seq<Record>, crc: Crc, k: nat)
    ensures var m := WholeFrames(rs, crc, k);
            && |FileOf(rs[..m], crc)| <= k
            && (m < |rs| ==> k < |FileOf(rs[..m + 1], crc)|)
  {
    var m := WholeFrames(rs, crc, k);
    if rs != [] {
      if k >= |FrameOf(rs[0], crc)| {
        WholeFramesExact(rs[1..], crc, k - |FrameOf(rs[0], crc)|);
        assert rs[..m][1..] == rs[1..][..m - 1];
        if m < |rs| {
          assert rs[..m + 1][1..] == rs[1..][..m];
        }
      } else {
        assert rs[..1][1..] == [];
        assert FileOf(rs[..1], crc) == FrameOf(rs[0], crc) + [];
      }
    }
  }

  lemma {:induction false} PrefixScans(rs: seq<Record>, crc: Crc, from: nat, k: nat)
    requires Numbered(rs, from)
    requires k <= |FileOf(rs, crc)|
    ensures ScanAll(FileOf(rs, crc)[..k], crc) == Scan(rs[..WholeFrames(rs, crc, k)], false)
  {
    if rs == [] || k < |FrameOf(rs[0], crc)| {
      CutInsideFirst(rs, crc, from, k);
    } else {
      var m, rest := WholeFrames(rs, crc, k), RestOfPrefix(rs, crc, k);
      calc {
        ScanAll(FileOf(rs, crc)[..k], crc);
      ==  { FrameThenRest(rs[0], crc, rest); }
        Scan([rs[0]] + ScanAll(rest, crc).records, ScanAll(rest, crc).corrupt);
      ==  { PrefixScans(rs[1..], crc, from + 1, |rest|); }
        Scan([rs[0]] + rs[1..][..m - 1], false);
      ==  { assert rs[..m] == [rs[0]] + rs[1..][..m - 1]; }
        Scan(rs[..m], false);
      }
    }
  }

  lemma {:induction false} PrefixRecovers(rs: seq<Record>, crc: Crc, from: nat, k: nat)
    requires Numbered(rs, from)
    requires k <= |FileOf(rs, crc)|
    ensures RecoverFrom(FileOf(rs, crc)[..k], crc, from) == from + WholeFrames(rs, crc, k)
  {
    hide FrameOf, ParseFrame, RecoverFrom;
    if rs == [] || k < |FrameOf(rs[0], crc)| {
      CutInsideFirst(rs, crc, from, k);
    } else {
      var m, rest := WholeFrames(rs, crc, k), RestOfPrefix(rs, crc, k);
      calc {
        RecoverFrom(FileOf(rs, crc)[..k], crc, from);
      ==  { FrameThenRest(rs[0], crc, rest); }
        RecoverFrom(rest, crc, from + 1);
      ==  { PrefixRecovers(rs[1..], crc, from + 1, |rest|); }
        from + m;
      }
    }
  }

  /** The prefix behind its first frame. */
  ghost function RestOfPrefix(rs: seq<Record>, crc: Crc, k: nat): (rest: seq<byte>)
    requires rs != []
    requires |FrameOf(rs[0], crc)| <= k <= |FileOf(rs, crc)|
    ensures |rest| == k - |FrameOf(rs[0], crc)|
    ensures |rest| <= |FileOf(rs[1..], crc)| && rest == FileOf(rs[1..], crc)[..|rest|]
    ensures FileOf(rs, crc)[..k] == FrameOf(rs[0], crc) + rest
  {
    FileOf(rs[1..], crc)[..k - |FrameOf(rs[0], crc)|]
  }

  /** Main result: whatever prefix of the file survives, reading it yields exactly the records
      whose frames lie wholly inside the prefix, reports no corruption, and a reopened log
      continues with the next number. */
  lemma PrefixReadsWholeFrames(rs: seq<Record>, crc: Crc, k: nat)
    requires Numbered(rs, 1)
    requires k <= |FileOf(rs, crc)|
    ensures var m := WholeFrames(rs, crc, k);
            && |FileOf(rs[..m], crc)| <= k
            && (m < |rs| ==> k < |FileOf(rs[..m + 1], crc)|)
            && ScanAll(FileOf(rs, crc)[..k], crc) == Scan(rs[..m], false)
            && RecoverFrom(FileOf(rs, crc)[..k], crc, 1) == m + 1
  {
    WholeFramesExact(rs, crc, k);
    PrefixScans(rs, crc, 1, k);
    PrefixRecovers(rs, crc, 1, k);
  }

  lemma CutInsideFirst(rs: seq<Record>, crc: Crc, from: nat, k: nat)
    requires rs != [] ==> Encodable(rs[0]) && k < |FrameOf(rs[0], crc)|
    requires k <= |FileOf(rs, crc)|
    ensures ScanAll(FileOf(rs, crc)[..k], crc) == Scan([], false)
    ensures RecoverFrom(FileOf(rs, crc)[..k], crc, from) == from
  {
    if rs == [] {
      assert ParseFrame(FileOf(rs, crc)[..k], crc) == End;
    } else {
      TornFrameEnds(rs[0], crc, k);
      assert FileOf(rs, crc)[..k] == FrameOf(rs[0], crc)[..k];
    }
  }

  lemma {:induction false} FileOfAppend(rs: seq<Record>, ts: seq<Record>, crc: Crc)
    ensures FileOf(rs + ts, crc) == FileOf(rs, crc) + FileOf(ts, crc)
  {
    if rs == [] {
      assert rs + ts == ts;
    } else {
      calc {
        FileOf(rs + ts, crc);
      ==  { assert (rs + ts)[1..] == rs[1..] + ts; }
        FrameOf(rs[0], crc) + FileOf(rs[1..] + ts, crc);
      ==  { FileOfAppend(rs[1..], ts, crc); }
        FrameOf(rs[0], crc) + (FileOf(rs[1..], crc) + FileOf(ts, crc));
      ==
        FrameOf(rs[0], crc) + FileOf(rs[1..], crc) + FileOf(ts, crc);
      }
    }
  }

  lemma {:induction false} WholeFramesAll(rs: seq<Record>, crc: Crc)
    ensures WholeFrames(rs, crc, |FileOf(rs, crc)|) == |rs|
  {
    if rs != [] {
      WholeFramesAll(rs[1..], crc);
    }
  }

  /** A crash in the middle of appending `r`: the half-written frame disappears. */
  lemma TornAppendIsInvisible(rs: seq<Record>, r: Record, crc: Crc, k: nat)
    requires Numbered(rs + [r], 1)
    requires k < |FrameOf(r, crc)|
    ensures ScanAll(FileOf(rs, crc) + FrameOf(r, crc)[..k], crc) == Scan(rs, false)
  {
    hide FrameOf, ScanAll;
    FileOfAppend(rs, [r], crc);
    assert FileOf([r], crc) == FrameOf(r, crc) + FileOf([], crc);
    var n := |FileOf(rs, crc)| + k;
    assert FileOf(rs, crc) + FrameOf(r, crc)[..k] == FileOf(rs + [r], crc)[..n];
    PrefixScans(rs + [r], crc, 1, n);
    CountBeforeTear(rs, r, crc, k);
    assert (rs + [r])[..|rs|] == rs;
  }

  lemma {:induction false} CountBeforeTear(rs: seq<Record>, r: Record, crc: Crc, k: nat)
    requires k < |FrameOf(r, crc)|
    ensures WholeFrames(rs + [r], crc, |FileOf(rs, crc)| + k) == |rs|
  {
    if rs != [] {
      CountBeforeTear(rs[1..], r, crc, k);
      assert (rs + [r])[1..] == rs[1..] + [r];
    }
  }

  lemma {:induction false} ScanStopsAtTear(rs: seq<Record>, crc: Crc, torn: seq<byte>)
    requires forall i :: 0 <= i < |rs| ==> Encodable(rs[i])
    requires ParseFrame(torn, crc) == End
    ensures ScanAll(FileOf(rs, crc) + torn, crc) == Scan(rs, false)
  {
    hide FrameOf, ParseFrame;
    if rs == [] {
      assert FileOf(rs, crc) + torn == torn;
    } else {
      var f, rest := FrameOf(rs[0], crc), FileOf(rs[1..], crc);
      calc {
        ScanAll(FileOf(rs, crc) + torn, crc);
      ==  { assert FileOf(rs, crc) + torn == f + (rest + torn); }
        ScanAll(f + (rest + torn), crc);
      ==  { FrameThenRest(rs[0], crc, rest + torn); }
        Scan([rs[0]] + ScanAll(rest + torn, crc).records, ScanAll(rest + torn, crc).corrupt);
      ==  { ScanStopsAtTear(rs[1..], crc, torn); }
        Scan([rs[0]] + rs[1..], false);
      }
    }
  }

  lemma {:induction false} FromIsSuffix(rs: seq<Record>, from: nat, lsn: int)
    requires Numbered(rs, from)
    requires from <= lsn <= from + |rs|
    ensures From(rs, lsn) == rs[lsn - from..]
  {
    if rs != [] {
      if lsn == from {
        FromAll(rs, lsn);
      } else {
        FromIsSuffix(rs[1..], from + 1, lsn);
      }
    }
  }

  lemma {:induction false} FromAll(rs: seq<Record>, lsn: int)
    requires forall i :: 0 <= i < |rs| ==> rs[i].lsn >= lsn
    ensures From(rs, lsn) == rs
  {
    if rs != [] {
      FromAll(rs[1..], lsn);
    }
  }

  // ----- what the reader takes for a frame is one

  lemma ParseIsFrame(s: seq<byte>, crc: Crc)
    requires ParseFrame(s, crc).Good?
    ensures var p := ParseFrame(s, crc);
            Encodable(p.rec) && p.size == |FrameOf(p.rec, crc)|
            && s[..p.size] == FrameOf(p.rec, crc)
  {
    var p := ParseFrame(s, crc);
    var len := |p.rec.payload|;
    Pow256Values();
    BEInverts(s[..8]);
    BEInverts(s[9..13]);
    LEInverts(s[HEADER_SIZE + len..HEADER_SIZE + len + CRC_SIZE]);
    BodyIs(s, len);
    hide FromBE, FromLE, BE, LE;
    var n := HEADER_SIZE + len;
    assert s[..p.size] == s[..n] + s[n..n + CRC_SIZE];
  }

  lemma BodyIs(s: seq<byte>, len: nat)
    requires HEADER_SIZE + len <= |s| && FromBE(s[9..13]) == len
    ensures Body(Record(FromBE(s[..8]), s[8], s[HEADER_SIZE..HEADER_SIZE + len])) == s[..HEADER_SIZE + len]
  {
    var h, payload := s[..HEADER_SIZE], s[HEADER_SIZE..HEADER_SIZE + len];
    BEInverts(s[..8]);
    BEInverts(s[9..13]);
    hide FromBE, BE;
    calc {
      Header(FromBE(s[..8]), s[8], len);
    ==
      s[..8] + [s[8]] + s[9..13];
    ==  { ThreeParts(s); }
      h;
    }
    hide Header;
    Halves(s, HEADER_SIZE, HEADER_SIZE + len);
  }

  lemma ThreeParts(s: seq<byte>)
    requires |s| >= HEADER_SIZE
    ensures s[..8] + [s[8]] + s[9..13] == s[..HEADER_SIZE]
  {
  }

  lemma Halves(s: seq<byte>, i: nat, j: nat)
    requires i <= j <= |s|
    ensures s[..j] == s[..i] + s[i..j]
  {
  }

  /** The opening walk has passed the frames of `seen` and is at `pos`. */
  ghost predicate Walked(bytes: seq<byte>, crc: Crc, pos: nat, seen: seq<Record>) {
    && pos <= |bytes| && Numbered(seen, 1) && bytes[..pos] == FileOf(seen, crc)
  }

  lemma WalkOn(bytes: seq<byte>, crc: Crc, pos: nat, seen: seq<Record>)
    requires Walked(bytes, crc, pos, seen)
    requires var p := ParseFrame(bytes[pos..], crc); p.Good? && p.rec.lsn == |seen| + 1
    ensures var p := ParseFrame(bytes[pos..], crc); Walked(bytes, crc, pos + p.size, seen + [p.rec])
  {
    var p := ParseFrame(bytes[pos..], crc);
    ParseIsFrame(bytes[pos..], crc);
    hide ParseFrame, FrameOf;
    FileOfAppend(seen, [p.rec], crc);
    assert FileOf([p.rec], crc) == FrameOf(p.rec, crc) + FileOf([], crc);
    assert bytes[..pos + p.size] == bytes[..pos] + bytes[pos..][..p.size];
  }

  /** On a file of whole frames the walk sees them all. */
  lemma WalkedAll(rs: seq<Record>, crc: Crc, pos: nat, seen: seq<Record>)
    requires Numbered(rs, 1) && Walked(FileOf(rs, crc), crc, pos, seen) && RecoverFrom(FileOf(rs, crc), crc, 1)
             == |seen| + 1
    ensures seen == rs && pos == |FileOf(rs, crc)|
  {
    hide ParseFrame, ScanAll, RecoverFrom, FrameOf, WholeFrames, FileOf, Numbered;
    WholeFile(rs, crc);
    WholeFile(seen, crc);
    PrefixReadsWholeFrames(rs, crc, pos);
    var m := WholeFrames(rs, crc, pos);
    assert seen == rs[..m];
  }

  lemma WholeFile(rs: seq<Record>, crc: Crc)
    requires Numbered(rs, 1)
    ensures ScanAll(FileOf(rs, crc), crc) == Scan(rs, false) && RecoverFrom(FileOf(rs, crc), crc, 1) == |rs| + 1
  {
    hide ParseFrame, ScanAll, RecoverFrom, FrameOf;
    var f := FileOf(rs, crc);
    WholeFramesAll(rs, crc);
    hide FileOf, WholeFrames;
    PrefixReadsWholeFrames(rs, crc, |f|);
    assert f[..|f|] == f && rs[..|rs|] == rs;
  }

  // ----- the log object

  datatype AppendResult = Appended(lsn: nat) | PackError

  class WAL {
    const crc: Crc
    var file: seq<byte>
    var nextLsn: nat
    ghost var log: seq<Record>

    ghost predicate Valid()
      reads this
    {
      && file == FileOf(log, crc)
      && Numbered(log, 1)
      && nextLsn == |log| + 1
    }

    /** Mode "w+b": start an empty log. */
    constructor Create(crc: Crc)
      ensures Valid() && log == [] && this.crc == crc
    {
      this.crc := crc;
      file, nextLsn, log := [], 1, [];
    }

    /** Mode "r+b": walk the surviving file to find the next number. */
    constructor Open(crc: Crc, bytes: seq<byte>)
      ensures this.crc == crc && file == bytes
      ensures nextLsn == RecoverFrom(bytes, crc, 1) == |log| + 1 && Numbered(log, 1) && FileOf(log, crc) <= bytes
      ensures forall rs :: Numbered(rs, 1) && bytes == FileOf(rs, crc) ==> Valid() && log == rs
    {
      this.crc := crc;
      file := bytes;
      var pos, next := 0, 1;
      ghost var seen: seq<Record> := [];
      hide ParseFrame, FrameOf;
      while true
        invariant Walked(bytes, crc, pos, seen) && next == |seen| + 1
        invariant RecoverFrom(bytes[pos..], crc, next) == RecoverFrom(bytes, crc, 1)
        decreases |bytes| - pos
      {
        var p := ParseFrame(bytes[pos..], crc);
        if !p.Good? || p.rec.lsn != next {
          break;
        }
        WalkOn(bytes, crc, pos, seen);
        assert bytes[pos..][p.size..] == bytes[pos + p.size..];
        pos, next, seen := pos + p.size, next + 1, seen + [p.rec];
      }
      nextLsn := next;
      log := seen;
      assert FileOf(seen, crc) <= bytes by { assert bytes[..pos] == FileOf(seen, crc); }
      forall rs | Numbered(rs, 1) && bytes == FileOf(rs, crc) ensures seen == rs && pos == |bytes| {
        WalkedAll(rs, crc, pos, seen);
      }
      assert bytes[..|bytes|] == bytes;
    }

    method Append(kind: byte, payload: seq<byte>) returns (r: AppendResult)
      requires Valid()
      modifies this`file, this`nextLsn, this`log
      ensures Valid()
      ensures r.Appended? <==> Packable(old(nextLsn), payload)
      ensures r.Appended? ==> r.lsn == old(nextLsn) && log == old(log) + [Record(r.lsn, kind, payload)]
      ensures r.PackError? ==> log == old(log) && file == old(file)
    {
      if !Packable(nextLsn, payload) {
        return PackError;
      }
      var rec := Record(nextLsn, kind, payload);
      FileOfAppend(log, [rec], crc);
      assert FileOf([rec], crc) == FrameOf(rec, crc) + FileOf([], crc);
      file := file + FrameOf(rec, crc);
      r := Appended(nextLsn);
      log := log + [rec];
      nextLsn := nextLsn + 1;
    }

    /** Removes all frames with LSN >= lsn; an LSN out of range is refused. */
    method TruncateTo(lsn: int) returns (ok: bool)
      requires Valid()
      modifies this`file, this`nextLsn, this`log
      ensures Valid()
      ensures ok <==> 1 <= lsn <= old(nextLsn)
      ensures log == if ok then old(log)[..lsn - 1] else old(log)
    {
      if lsn < 1 || lsn > nextLsn {
        return false;
      }
      ok := true;
      var offset := 0;
      ghost var i := 0;
      assert log[0..] == log;
      hide FrameOf, FromBE;
      while true
        invariant 0 <= i <= |log| && i <= lsn - 1
        invariant 0 <= offset <= |file|
        invariant Valid() && log == old(log) && file == old(file) && nextLsn == old(nextLsn)
        invariant Split(log, i, crc, file, offset)
        decreases |file| - offset
      {
        if |file| - offset < HEADER_SIZE {
          assert i == |log|;
          break;
        }
        var header := file[offset..offset + HEADER_SIZE];
        var frameLsn, len := FromBE(header[..8]), FromBE(header[9..13]);
        SplitStep(log, i, crc, file, offset);
        if frameLsn >= lsn {
          file := file[..offset];
          log := log[..i];
          nextLsn := lsn;
          return;
        }
        offset, i := offset + HEADER_SIZE + CRC_SIZE + len, i + 1;
      }
      assert log == log[..lsn - 1];
    }

    /** Yields the records with LSN >= lsn (numbers below 1 mean 1) and whether it then raised. */
    method IterFrom(lsn: int) returns (s: Scan)
      ensures s == Scan(From(ScanAll(file, crc).records, if lsn < 1 then 1 else lsn), ScanAll(file, crc).corrupt)
      ensures Valid() && 1 <= lsn <= nextLsn ==> s == Scan(log[lsn - 1..], false)
    {
      var first := if lsn < 1 then 1 else lsn;
      var pos, out := 0, [];
      ghost var seen := [];
      var corrupt := false;
      while true
        invariant 0 <= pos <= |file|
        invariant ScannedTo(file, crc, pos, seen)
        invariant out == From(seen, first)
        decreases |file| - pos
      {
        var p := ParseFrame(file[pos..], crc);
        if p.End? || p.Corrupt? {
          corrupt := p.Corrupt?;
          break;
        }
        ScanStep(file, crc, pos, seen);
        hide ScanAll, ScannedTo, ParseFrame, From;
        FromSnoc(seen, p.rec, first);
        if p.rec.lsn >= first {
          out := out + [p.rec];
        }
        seen := seen + [p.rec];
        pos := pos + p.size;
      }
      s := Scan(out, corrupt);
      assert seen == ScanAll(file, crc).records;
      hide ScanAll, FileOf, From;
      if Valid() && 1 <= lsn <= nextLsn {
        WholeLogScans(log, crc, lsn);
      }
    }
  }

  /** `offset` is the boundary before frame i of the file. */
  ghost predicate Split(rs: seq<Record>, i: nat, crc: Crc, file: seq<byte>, offset: nat) {
    && i <= |rs| && offset <= |file|
    && file[..offset] == FileOf(rs[..i], crc)
    && file[offset..] == FileOf(rs[i..], crc)
  }

  lemma SplitStep(rs: seq<Record>, i: nat, crc: Crc, file: seq<byte>, offset: nat)
    requires Split(rs, i, crc, file, offset) && Numbered(rs, 1)
    requires |file| - offset >= HEADER_SIZE
    ensures i < |rs|
    ensures FromBE(file[offset..offset + HEADER_SIZE][..8]) == rs[i].lsn
    ensures FromBE(file[offset..offset + HEADER_SIZE][9..13]) == |rs[i].payload|
    ensures Split(rs, i + 1, crc, file, offset + HEADER_SIZE + CRC_SIZE + |rs[i].payload|)
  {
    hide FrameOf, FromBE;
    var s := file[offset..];
    HeaderAt(rs, i, crc, s);
    var f := FrameOf(rs[i], crc);
    var header := file[offset..offset + HEADER_SIZE];
    assert header == s[..HEADER_SIZE];
    assert header[..8] == s[..8] && header[9..13] == s[9..13];
    calc {
      FileOf(rs[..i + 1], crc);
    ==  { assert rs[..i + 1] == rs[..i] + [rs[i]]; FileOfAppend(rs[..i], [rs[i]], crc); }
      file[..offset] + FileOf([rs[i]], crc);
    ==  { assert FileOf([rs[i]], crc) == f + FileOf([], crc); }
      file[..offset] + f;
    ==  { assert s[..|f|] == f; }
      file[..offset + |f|];
    }
    assert file[offset + |f|..] == s[|f|..];
  }

  ghost predicate ScannedTo(file: seq<byte>, crc: Crc, pos: nat, seen: seq<Record>)
    requires pos <= |file|
  {
    var rest := ScanAll(file[pos..], crc);
    ScanAll(file, crc) == Scan(seen + rest.records, rest.corrupt)
  }

  lemma ScanStep(file: seq<byte>, crc: Crc, pos: nat, seen: seq<Record>)
    requires pos <= |file| && ScannedTo(file, crc, pos, seen)
    requires ParseFrame(file[pos..], crc).Good?
    ensures var p := ParseFrame(file[pos..], crc);
            ScannedTo(file, crc, pos + p.size, seen + [p.rec])
  {
    var p := ParseFrame(file[pos..], crc);
    assert file[pos..][p.size..] == file[pos + p.size..];
    var rest := ScanAll(file[pos + p.size..], crc).records;
    assert seen + ([p.rec] + rest) == (seen + [p.rec]) + rest;
  }

  lemma WholeLogScans(rs: seq<Record>, crc: Crc, lsn: nat)
    requires Numbered(rs, 1)
    requires 1 <= lsn <= |rs| + 1
    ensures ScanAll(FileOf(rs, crc), crc) == Scan(rs, false)
    ensures From(rs, lsn) == rs[lsn - 1..]
  {
    WholeFile(rs, crc);
    hide ParseFrame, ScanAll, FileOf;
    FromIsSuffix(rs, 1, lsn);
  }

  lemma HeaderAt(rs: seq<Record>, i: nat, crc: Crc, s: seq<byte>)
    requires i < |rs| && Encodable(rs[i])
    requires s == FileOf(rs[i..], crc)
    ensures |s| >= |FrameOf(rs[i], crc)|
    ensures FromBE(s[..8]) == rs[i].lsn && FromBE(s[9..13]) == |rs[i].payload|
    ensures s == FrameOf(rs[i], crc) + FileOf(rs[i + 1..], crc)
  {
    var r := rs[i];
    assert rs[i..][1..] == rs[i + 1..];
    Pow256Values();
    FromBEInverts(r.lsn, 8);
    FromBEInverts(|r.payload|, 4);
    assert s[..8] == BE(r.lsn, 8);
    assert s[9..13] == BE(|r.payload|, 4);
  }

  lemma {:induction false} FromSnoc(rs: seq<Record>, r: Record, lsn: int)
    ensures From(rs + [r], lsn) == if r.lsn >= lsn then From(rs, lsn) + [r] else From(rs, lsn)
  {
    if rs == [] {
      assert rs + [r] == [r];
    } else {
      FromSnoc(rs[1..], r, lsn);
      assert (rs + [r])[1..] == rs[1..] + [r];
    }
  }
}
