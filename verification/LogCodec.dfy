/** Log entries as bytes, and crash safety down to the bytes of a file cut in mid-append. */
module LogCodec {
  import opened Common
  import Paging
  import opened Bytes
  import opened Recovery
  import opened RecoveryExact
  import opened Transactions
  import Wal

  const PAGE_RECORD_HEADER: nat := 20

  /** What fits the fields of a record. */
  predicate Storable(e: Entry) {
    match e
    case Write(tx, pid, b, a) => tx < U64 && pid < U32 && |b| == Paging.PAGE_SIZE && |a| == Paging.PAGE_SIZE
    case Other => true
    case _ => e.tx < U64
  }

  function Kind(e: Entry): byte {
    match e
    case Begin(_) => Wal.RT_BEGIN
    case Commit(_) => Wal.RT_COMMIT
    case Rollback(_) => Wal.RT_ROLLBACK
    case Write(_, _, _, _) => Wal.RT_PAGE
    case Other => Wal.RT_CKPT
  }

  function Payload(e: Entry, lsn: nat): seq<byte> {
    match e
    case Write(tx, pid, b, a) => BE(tx, 8) + BE(pid, 4) + BE(Paging.PAGE_SIZE, 4) + BE(Paging.PAGE_SIZE, 4) + b + a
    case Other => BE(lsn, 8)
    case _ => BE(e.tx, 8)
  }

  datatype Decoded = Entry(e: Entry) | DecodeError

  function DecodePageRecord(s: seq<byte>): Decoded {
    if |s| < PAGE_RECORD_HEADER then DecodeError
    else
      var n, m := FromBE(s[12..16]), FromBE(s[16..20]);
      if PAGE_RECORD_HEADER + n + m != |s| || n != Paging.PAGE_SIZE || m != Paging.PAGE_SIZE then DecodeError
      else Entry(Write(FromBE(s[..8]), FromBE(s[8..12]), s[20..20 + n], s[20 + n..20 + n + m]))
  }

  /** How replay reads one record; unknown types are ignored. */
  function Decode(r: Wal.Record): Decoded {
    if r.kind == Wal.RT_PAGE then DecodePageRecord(r.payload)
    else if r.kind in {Wal.RT_BEGIN, Wal.RT_COMMIT, Wal.RT_ROLLBACK} then
      if |r.payload| != 8 then DecodeError
      else
        var tx := FromBE(r.payload);
        Entry(if r.kind == Wal.RT_BEGIN then Begin(tx) else if r.kind == Wal.RT_COMMIT then Commit(tx)
              else Rollback(tx))
    else Entry(Other)
  }

  function RecordOf(e: Entry, lsn: nat): Wal.Record {
    Wal.Record(lsn, Kind(e), Payload(e, lsn))
  }

  lemma PageRecordRoundTrip(tx: nat, pid: nat, b: Page, a: Page)
    requires Storable(Write(tx, pid, b, a))
    ensures DecodePageRecord(Payload(Write(tx, pid, b, a), 0)) == Entry(Write(tx, pid, b, a))
  {
    var s := Payload(Write(tx, pid, b, a), 0);
    Pow256Values();
    FromBEInverts(tx, 8);
    FromBEInverts(pid, 4);
    FromBEInverts(Paging.PAGE_SIZE, 4);
    hide BE, FromBE;
    assert s[..8] == BE(tx, 8);
    assert s[8..12] == BE(pid, 4);
    assert s[12..16] == BE(Paging.PAGE_SIZE, 4);
    assert s[16..20] == BE(Paging.PAGE_SIZE, 4);
    assert s[20..20 + Paging.PAGE_SIZE] == b;
    assert s[20 + Paging.PAGE_SIZE..20 + Paging.PAGE_SIZE + Paging.PAGE_SIZE] == a;
  }

  /** Every entry survives the trip through its record. */
  lemma EntryRoundTrip(e: Entry, lsn: nat)
    requires Storable(e)
    ensures Decode(RecordOf(e, lsn)) == Entry(e)
  {
    Pow256Values();
    match e
    case Write(tx, pid, b, a) => PageRecordRoundTrip(tx, pid, b, a);
    case Other =>
    case Begin(tx) => FromBEInverts(tx, 8);
    case Commit(tx) => FromBEInverts(tx, 8);
    case Rollback(tx) => FromBEInverts(tx, 8);
  }

  function Records(log: Log, from: nat): (rs: seq<Wal.Record>)
    ensures |rs| == |log|
    ensures forall i :: 0 <= i < |log| ==> rs[i] == RecordOf(log[i], from + i)
  {
    seq(|log|, i requires 0 <= i < |log| => RecordOf(log[i], from + i))
  }

  /** The log that replay reads; None when some record makes it raise. */
  function DecodeAll(rs: seq<Wal.Record>): Option<Log> {
    if rs == [] then Some([])
    else
      var rest := DecodeAll(rs[..|rs| - 1]);
      var d := Decode(rs[|rs| - 1]);
      if rest.Some? && d.Entry? then Some(rest.value + [d.e]) else None
  }

  lemma {:induction false} DecodesBack(log: Log, from: nat)
    requires forall e <- log :: Storable(e)
    ensures DecodeAll(Records(log, from)) == Some(log)
  {
    if log != [] {
      var e, rest := log[|log| - 1], log[..|log| - 1];
      assert e in log;
      DecodesBack(rest, from);
      EntryRoundTrip(e, from + |rest|);
      assert Records(log, from)[..|rest|] == Records(rest, from);
      assert log == rest + [e];
      hide Decode, RecordOf;
    }
  }

  /** Replay of a log file: refuses corrupt files and malformed records. */
  function ReplayFile(disk: Disk, file: seq<byte>, crc: Wal.Crc): Option<Disk> {
    var s := Wal.ScanAll(file, crc);
    var log := DecodeAll(s.records);
    if s.corrupt || log.None? then None else Some(Replay(disk, log.value))
  }

  /** A page record decodes exactly when it is some entry's, byte for byte. */
  lemma PageRecordExact(s: seq<byte>, e: Entry)
    ensures DecodePageRecord(s) == Entry(e) <==> e.Write? && Storable(e) && s == Payload(e, 0)
  {
    if e.Write? && Storable(e) && s == Payload(e, 0) {
      PageRecordRoundTrip(e.tx, e.pid, e.before, e.after);
    }
    if DecodePageRecord(s) == Entry(e) {
      Pow256Values();
      BEInverts(s[..8]);
      BEInverts(s[8..12]);
      BEInverts(s[12..16]);
      BEInverts(s[16..20]);
      hide BE, FromBE;
      var n := Paging.PAGE_SIZE;
      assert s == s[..8] + s[8..12] + s[12..16] + s[16..20] + s[20..20 + n] + s[20 + n..];
    }
  }

  lemma {:induction false} DecodesAllExactly(rs: seq<Wal.Record>)
    ensures match DecodeAll(rs)
            case None => exists i :: 0 <= i < |rs| && Decode(rs[i]).DecodeError?
            case Some(log) => |log| == |rs| && forall i :: 0 <= i < |rs| ==> Decode(rs[i]) == Entry(log[i])
  {
    if rs != [] {
      var n := |rs| - 1;
      DecodesAllExactly(rs[..n]);
      hide Decode;
      if DecodeAll(rs[..n]).None? {
        var i :| 0 <= i < n && Decode(rs[..n][i]).DecodeError?;
        assert Decode(rs[i]).DecodeError?;
      } else if Decode(rs[n]).Entry? {
        var log := DecodeAll(rs[..n]).value;
        forall i | 0 <= i < |rs| ensures Decode(rs[i]) == Entry((log + [Decode(rs[n]).e])[i]) {
          assert i < n ==> rs[..n][i] == rs[i];
        }
      }
    }
  }

  /** Replaying a file raises exactly when the scan meets a corrupt frame or a record that does not decode;
      otherwise the entries of all its records are replayed, in order. */
  lemma ReplayFileExact(disk: Disk, file: seq<byte>, crc: Wal.Crc)
    ensures var s, r := Wal.ScanAll(file, crc), ReplayFile(disk, file, crc);
            && (r.None? <==> s.corrupt || exists i :: 0 <= i < |s.records| && Decode(s.records[i]).DecodeError?)
            && (r.Some? ==> exists log :: EntriesOf(s.records, log) && r == Some(Replay(disk, log)))
  {
    var s := Wal.ScanAll(file, crc);
    DecodesAllExactly(s.records);
    hide Wal.ScanAll, Decode, Replay, DecodeAll;
    if DecodeAll(s.records).Some? {
      var log := DecodeAll(s.records).value;
      assert EntriesOf(s.records, log);
      forall i | 0 <= i < |s.records| ensures !Decode(s.records[i]).DecodeError? {
        assert Decode(s.records[i]) == Entry(log[i]);
      }
    }
  }

  ghost predicate EntriesOf(rs: seq<Wal.Record>, log: Log) {
    |log| == |rs| && forall i :: 0 <= i < |rs| ==> Decode(rs[i]) == Entry(log[i])
  }

  lemma RecordsArePackable(log: Log)
    requires forall e <- log :: Storable(e)
    requires |log| < U64 - 1
    ensures Wal.Numbered(Records(log, 1), 1)
  {
    forall i | 0 <= i < |log| ensures Wal.Encodable(Records(log, 1)[i]) {
      assert Storable(log[i]);
      hide BE;
    }
  }

  /** Crash safety down to the bytes: any run of the manager, its log written to a file, the file
      cut anywhere inside the record `e` being appended. Replaying what is left restores page `p`
      to its committed state if and only if the complete part of the log is recoverable there. */
  lemma CrashMidAppend(start: Disk, steps: seq<Step>, crc: Wal.Crc, e: Entry, k: nat, p: nat)
    requires var s := Run(Start(start), steps); |s.log| < U64 - 2 && forall x <- s.log + [e] :: Storable(x)
    requires p in start
    requires k < |Wal.FrameOf(RecordOf(e, |Run(Start(start), steps).log| + 1), crc)|
    ensures var s := Run(Start(start), steps);
            var frame := Wal.FrameOf(RecordOf(e, |s.log| + 1), crc);
            var after := ReplayFile(s.disk, Wal.FileOf(Records(s.log, 1), crc) + frame[..k], crc);
            && after.Some? && p in after.value && p in CommittedOnly(start, s.log, s.log)
            && (after.value[p] == CommittedOnly(start, s.log, s.log)[p] <==> Recoverable(s.log, p))
  {
    hide Run, Wal.FrameOf, Wal.FileOf, Wal.ScanAll, Replay, CommittedOnly, Recoverable, DecodeAll, RecordOf, Storable;
    var log := Run(Start(start), steps).log;
    RecordsArePackable(log + [e]);
    assert Records(log + [e], 1) == Records(log, 1) + [RecordOf(e, |log| + 1)];
    Wal.TornAppendIsInvisible(Records(log, 1), RecordOf(e, |log| + 1), crc, k);
    assert forall x <- log :: x in log + [e];
    DecodesBack(log, 1);
    CrashSafety(start, steps, p);
  }

  // ----- the manager's log on the log file

  /** The file holds exactly the manager's log. */
  ghost predicate Mirrors(w: Wal.WAL, log: Log)
    reads w
  {
    w.Valid() && w.log == Records(log, 1)
  }

  /** What every `append` of the manager does: the file goes on mirroring the log, and decodes to it. */
  method AppendEntry(w: Wal.WAL, e: Entry, ghost log: Log) returns (lsn: nat)
    requires Mirrors(w, log) && Storable(e) && w.nextLsn < U64
    modifies w
    ensures Mirrors(w, log + [e]) && lsn == |log| + 1
    ensures (forall x <- log :: Storable(x)) ==> DecodeAll(w.log) == Some(log + [e])
  {
    hide BE, DecodeAll;
    var r := w.Append(Kind(e), Payload(e, w.nextLsn));
    assert Records(log + [e], 1) == Records(log, 1) + [RecordOf(e, |log| + 1)];
    lsn := r.lsn;
    if forall x <- log :: Storable(x) {
      assert forall x <- log + [e] :: x in log || x == e;
      DecodesBack(log + [e], 1);
    }
  }
}
