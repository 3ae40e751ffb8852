/** A log reopened with a torn tail: nobody removes the tail, and `append` writes behind it. What a later
    reader sees, exactly. */
module WalReopen {
  import opened Common
  import opened Bytes
  import opened Wal

  predicate AllEncodable(rs: seq<Record>) {
    forall i :: 0 <= i < |rs| ==> Encodable(rs[i])
  }

  /** Behind whole frames the scan goes on with the tail. */
  lemma {:induction false} ScanAfter(rs: seq<Record>, crc: Crc, tail: seq<byte>)
    requires AllEncodable(rs)
    ensures ScanAll(FileOf(rs, crc) + tail, crc) == Scan(rs + ScanAll(tail, crc).records, ScanAll(tail, crc).corrupt)
    decreases rs
  {
    hide FrameOf, ParseFrame;
    var s := ScanAll(tail, crc);
    if rs == [] {
      assert FileOf(rs, crc) + tail == tail && [] + s.records == s.records;
    } else {
      var f, rest := FrameOf(rs[0], crc), FileOf(rs[1..], crc);
      calc {
        ScanAll(FileOf(rs, crc) + tail, crc);
      ==  { assert FileOf(rs, crc) + tail == f + (rest + tail); }
        ScanAll(f + (rest + tail), crc);
      ==  { FrameThenRest(rs[0], crc, rest + tail); }
        Scan([rs[0]] + ScanAll(rest + tail, crc).records, ScanAll(rest + tail, crc).corrupt);
      ==  { ScanAfter(rs[1..], crc, tail); }
        Scan([rs[0]] + (rs[1..] + s.records), s.corrupt);
      ==  { assert [rs[0]] + (rs[1..] + s.records) == rs + s.records; }
        Scan(rs + s.records, s.corrupt);
      }
    }
  }

  /** Any bytes read as exactly the records `ms`, without an error, if and only if they begin with the file
      of `ms` and what remains is a torn frame or nothing. */
  lemma {:induction false} ScanExact(s: seq<byte>, ms: seq<Record>, crc: Crc)
    ensures ScanAll(s, crc) == Scan(ms, false) <==>
              AllEncodable(ms) && FileOf(ms, crc) <= s && ParseFrame(s[|FileOf(ms, crc)|..], crc) == End
    decreases ms
  {
    if ms == [] {
      assert s[0..] == s;
      EndScans(s, crc);
    } else {
      FirstScans(s, ms, crc);
    }
  }

  lemma EndScans(s: seq<byte>, crc: Crc)
    ensures ScanAll(s, crc) == Scan([], false) <==> ParseFrame(s, crc) == End
  {
    hide ParseFrame;
  }

  lemma {:induction false} FirstScans(s: seq<byte>, ms: seq<Record>, crc: Crc)
    requires ms != []
    ensures ScanAll(s, crc) == Scan(ms, false) <==>
              AllEncodable(ms) && FileOf(ms, crc) <= s && ParseFrame(s[|FileOf(ms, crc)|..], crc) == End
    decreases ms, 0
  {
    var f, rest := FrameOf(ms[0], crc), FileOf(ms[1..], crc);
    if ScanAll(s, crc) == Scan(ms, false) {
      var p := ParseFrame(s, crc);
      ParseIsFrame(s, crc);
      hide ParseFrame, FrameOf;
      assert p.rec == ms[0] && ScanAll(s[p.size..], crc).records == ms[1..];
      ScanExact(s[p.size..], ms[1..], crc);
      Stacked(s, f, rest);
      assert forall i :: 0 < i < |ms| ==> ms[i] == ms[1..][i - 1];
    }
    if AllEncodable(ms) && FileOf(ms, crc) <= s && ParseFrame(s[|FileOf(ms, crc)|..], crc) == End {
      hide FrameOf, ParseFrame, ScanAll;
      var tail := s[|FileOf(ms, crc)|..];
      assert s == FileOf(ms, crc) + tail;
      ScanStopsAtTear(ms, crc, tail);
    }
  }

  lemma Stacked(s: seq<byte>, f: seq<byte>, rest: seq<byte>)
    requires |f| <= |s| && s[..|f|] == f && rest <= s[|f|..]
    ensures f + rest <= s && s[|f + rest|..] == s[|f|..][|rest|..]
  {
    assert s == f + s[|f|..];
  }

  // ----- reopening

  /** The file after a crash inside the frame of r, reopened, with `more` appended. */
  function Reopened(rs: seq<Record>, r: Record, crc: Crc, k: nat, more: seq<Record>): seq<byte>
    requires k <= |FrameOf(r, crc)|
  {
    FileOf(rs, crc) + Tail(r, crc, k, more)
  }

  function Tail(r: Record, crc: Crc, k: nat, more: seq<Record>): seq<byte>
    requires k <= |FrameOf(r, crc)|
  {
    FrameOf(r, crc)[..k] + FileOf(more, crc)
  }

  /** Exactly when the records appended after reopening are read: the bytes behind the whole frames, torn
      ones included, begin with their file, and the rest is again a torn frame or nothing. */
  lemma ReopenExact(rs: seq<Record>, r: Record, crc: Crc, k: nat, more: seq<Record>)
    requires Numbered(rs + [r], 1) && Numbered(more, |rs| + 1) && k < |FrameOf(r, crc)|
    ensures var tail := Tail(r, crc, k, more);
            ScanAll(Reopened(rs, r, crc, k, more), crc) == Scan(rs + more, false) <==>
              FileOf(more, crc) <= tail && ParseFrame(tail[|FileOf(more, crc)|..], crc) == End
  {
    var tail := Tail(r, crc, k, more);
    assert forall i :: 0 <= i < |rs| ==> rs[i] == (rs + [r])[i];
    ScanAfter(rs, crc, tail);
    ScanExact(tail, more, crc);
    hide ScanAll, ParseFrame, FrameOf, FileOf, Tail;
    var s := ScanAll(tail, crc);
    assert rs + s.records == rs + more <==> s.records == more by {
      assert (rs + s.records)[|rs|..] == s.records && (rs + more)[|rs|..] == more;
    }
  }

  /** Nothing torn, or nothing appended: all is read. */
  lemma CleanReopen(rs: seq<Record>, r: Record, crc: Crc, k: nat, more: seq<Record>)
    requires Numbered(rs + [r], 1) && Numbered(more, |rs| + 1) && k < |FrameOf(r, crc)| && (k == 0 || more == [])
    ensures ScanAll(Reopened(rs, r, crc, k, more), crc) == Scan(rs + more, false)
  {
    ReopenExact(rs, r, crc, k, more);
    var tail := Tail(r, crc, k, more);
    if k == 0 {
      assert tail == FileOf(more, crc) && tail[|FileOf(more, crc)|..] == [];
    } else {
      assert FileOf(more, crc) == [] && tail == FrameOf(r, crc)[..k] && tail[0..] == tail;
      assert Encodable((rs + [r])[|rs|]);
      TornFrameEnds(r, crc, k);
    }
  }

  /** Otherwise only a coincidence saves them: the first new frame would have to begin with the torn bytes
      and be longer than they are. */
  lemma OnlyARepeatIsRead(rs: seq<Record>, r: Record, crc: Crc, k: nat, more: seq<Record>)
    requires Numbered(rs + [r], 1) && Numbered(more, |rs| + 1) && 0 < k < |FrameOf(r, crc)| && more != []
    requires ScanAll(Reopened(rs, r, crc, k, more), crc) == Scan(rs + more, false)
    ensures k < |FrameOf(more[0], crc)| && FrameOf(more[0], crc)[..k] == FrameOf(r, crc)[..k]
  {
    ReopenExact(rs, r, crc, k, more);
    var t, f := FrameOf(r, crc)[..k], FrameOf(more[0], crc);
    var tail := Tail(r, crc, k, more);
    assert Encodable((rs + [r])[|rs|]);
    TornFrameEnds(r, crc, k);
    NotInside(t, more[0], crc);
    hide ParseFrame, FrameOf, ScanAll;
    assert FileOf(more, crc) == f + FileOf(more[1..], crc);
    assert f <= tail;
    BothBegin(t, f, FileOf(more, crc));
  }

  lemma Inside(t: seq<byte>, m: Record, crc: Crc)
    requires Encodable(m) && FrameOf(m, crc) <= t
    ensures ParseFrame(t, crc).Good?
  {
    var f := FrameOf(m, crc);
    FrameParses(m, crc, t[|f|..]);
    hide ParseFrame, FrameOf;
    assert t == f + t[|f|..];
  }

  lemma NotInside(t: seq<byte>, m: Record, crc: Crc)
    requires ParseFrame(t, crc) == End && Encodable(m)
    ensures !(FrameOf(m, crc) <= t)
  {
    if FrameOf(m, crc) <= t {
      Inside(t, m, crc);
      assert false;
    }
  }

  lemma BothBegin(t: seq<byte>, f: seq<byte>, more: seq<byte>)
    requires f <= t + more
    ensures f <= t || (|t| < |f| && f[..|t|] == t)
  {
    if |f| <= |t| {
      assert (t + more)[..|f|] == t[..|f|];
    } else {
      assert (t + more)[..|f|][..|t|] == t;
    }
  }

  // ----- what is read instead, once the torn frame's header is complete

  /** The torn header announces n bytes. Until they are there nothing new is read; once they are, the
      announced bytes are checked as one frame: an error, or, if the checksum fits by chance, a record made
      of both, and the reader goes on in the middle of what was appended. */
  lemma TornHeaderSwallows(rs: seq<Record>, r: Record, crc: Crc, k: nat, more: seq<byte>)
    requires Numbered(rs + [r], 1) && HEADER_SIZE <= k < |FrameOf(r, crc)|
    ensures var n, tail := |FrameOf(r, crc)|, FrameOf(r, crc)[..k] + more;
            var s := ScanAll(FileOf(rs, crc) + tail, crc);
            if |tail| < n then s == Scan(rs, false)
            else if crc(tail[..n - CRC_SIZE]) != FromLE(tail[n - CRC_SIZE..n]) then s == Scan(rs, true)
            else
              var rest := ScanAll(tail[n..], crc);
              s == Scan(rs + ([Record(r.lsn, r.kind, tail[HEADER_SIZE..n - CRC_SIZE])] + rest.records), rest.corrupt)
  {
    var n, tail := |FrameOf(r, crc)|, FrameOf(r, crc)[..k] + more;
    assert Encodable((rs + [r])[|rs|]);
    assert forall i :: 0 <= i < |rs| ==> rs[i] == (rs + [r])[i];
    ScanAfter(rs, crc, tail);
    TornHeaderParses(r, crc, k, more);
    hide ParseFrame, FrameOf;
    assert rs + [] == rs;
  }

  lemma TornHeaderParses(r: Record, crc: Crc, k: nat, more: seq<byte>)
    requires Encodable(r) && HEADER_SIZE <= k < |FrameOf(r, crc)|
    ensures var n, tail := |FrameOf(r, crc)|, FrameOf(r, crc)[..k] + more;
            ParseFrame(tail, crc) ==
              if |tail| < n then End
              else if crc(tail[..n - CRC_SIZE]) != FromLE(tail[n - CRC_SIZE..n]) then Corrupt
              else Good(Record(r.lsn, r.kind, tail[HEADER_SIZE..n - CRC_SIZE]), n)
  {
    var tail := FrameOf(r, crc)[..k] + more;
    Pow256Values();
    FromBEInverts(|r.payload|, 4);
    FromBEInverts(r.lsn, 8);
    assert tail[9..13] == BE(|r.payload|, 4);
    assert tail[..8] == BE(r.lsn, 8);
    assert tail[8] == r.kind;
  }
}
