/**
 The binary trace file: a 4-byte big-endian header word followed by 8-byte
 branch records, each a 4-byte big-endian program counter and a 4-byte outcome
 word that means "taken" when it is nonzero. A read that comes up short, for
 the header or for either half of a record, ends the trace; a partial trailing
 record is never seen.
 */
module Trace {
  import opened Bytes
  import opened Wrappers

  /** Bytes taken by the leading instruction-count word. */
  const HEADER_SIZE: nat := 4

  /** Bytes taken by one record: program counter, then outcome word. */
  const RECORD_SIZE: nat := 8

  /** One executed branch: its program counter in host order and whether it was taken. */
  datatype Record = Record(pc: uint32, taken: bool)

  /** A decoded file: the header's instruction count (never used) and the records read. */
  datatype TraceFile = TraceFile(numInstructions: uint32, records: seq<Record>)

  /**
   `readTrace`: read the PC word, then the outcome word, from the front of `s`.
   None when fewer than four bytes remain for either word; otherwise the record
   and the bytes after it. The PC is converted from network byte order as the
   caller does with `ntohl`; the outcome word is read in host order.
   */
  function ReadTrace(s: seq<byte>): (r: Option<(Record, seq<byte>)>)
    ensures r.Some? <==> |s| >= RECORD_SIZE
    ensures r.Some? ==> r.value.1 == s[RECORD_SIZE..]
    ensures r.Some? ==> r.value.0.pc == BE32(s[..WORD_SIZE])
    ensures r.Some? ==> (r.value.0.taken <==> exists i | WORD_SIZE <= i < RECORD_SIZE :: s[i] != 0)
  {
    if |s| < WORD_SIZE then None
    else
      var pcWord := s[..WORD_SIZE];
      var rest := s[WORD_SIZE..];
      if |rest| < WORD_SIZE then None
      else
        var outcomeWord := HostWord(rest[..WORD_SIZE]);
        assert forall i | 0 <= i < WORD_SIZE :: rest[..WORD_SIZE][i] == s[WORD_SIZE + i];
        Some((Record(BE32(pcWord), outcomeWord != 0), rest[WORD_SIZE..]))
  }

  /** Every record `readTrace` returns, in file order, until a read comes up short. */
  function DecodeRecords(s: seq<byte>): (rs: seq<Record>)
    ensures |rs| == |s| / RECORD_SIZE
    decreases |s|
  {
    match ReadTrace(s)
    case None => []
    case Some((rec, rest)) => [rec] + DecodeRecords(rest)
  }

  /**
   The whole file as the simulator reads it: None when the header read comes
   up short, otherwise the header value and every complete record after it.
   */
  function ParseTrace(file: seq<byte>): (r: Option<TraceFile>)
    ensures r.None? <==> |file| < HEADER_SIZE
    ensures r.Some? ==> r.value.numInstructions == BE32(file[..HEADER_SIZE])
    ensures r.Some? ==> |r.value.records| == (|file| - HEADER_SIZE) / RECORD_SIZE
  {
    if |file| < HEADER_SIZE then None
    else Some(TraceFile(BE32(file[..HEADER_SIZE]), DecodeRecords(file[HEADER_SIZE..])))
  }

  /** The 8 bytes a trace writer stores for one record (outcome word 1 when taken). */
  function EncodeRecord(rec: Record): (b: seq<byte>)
    ensures |b| == RECORD_SIZE
  {
    EncodeBE32(rec.pc) + (if rec.taken then [1, 0, 0, 0] else [0, 0, 0, 0])
  }

  /** The records of a trace, back to back. */
  function EncodeRecords(rs: seq<Record>): (b: seq<byte>)
    ensures |b| == RECORD_SIZE * |rs|
  {
    if |rs| == 0 then [] else EncodeRecord(rs[0]) + EncodeRecords(rs[1..])
  }

  /** Reading the front of an encoded record gives back the record and what follows it. */
  lemma ReadEncodedRecord(rec: Record, rest: seq<byte>)
    ensures ReadTrace(EncodeRecord(rec) + rest) == Some((rec, rest))
  {
    var s := EncodeRecord(rec) + rest;
    assert s[..WORD_SIZE] == EncodeBE32(rec.pc);
    assert s[RECORD_SIZE..] == rest;
    assert rec.taken ==> s[WORD_SIZE] != 0;
  }

  /** One step of the decoder: a complete record, then the decoding of what follows it. */
  lemma DecodeRecordsUnfold(s: seq<byte>)
    requires |s| >= RECORD_SIZE
    ensures DecodeRecords(s) == [ReadTrace(s).value.0] + DecodeRecords(s[RECORD_SIZE..])
  {
  }

  /** Decoding an encoded trace gives back its records, whatever partial record trails it. */
  lemma {:induction false} DecodeEncodedRecords(rs: seq<Record>, tail: seq<byte>)
    requires |tail| < RECORD_SIZE
    ensures DecodeRecords(EncodeRecords(rs) + tail) == rs
    decreases |rs|
  {
    var s := EncodeRecords(rs) + tail;
    if |rs| == 0 {
      assert s == tail;
    } else {
      var rest := EncodeRecords(rs[1..]) + tail;
      assert s == EncodeRecord(rs[0]) + rest;
      ReadEncodedRecord(rs[0], rest);
      DecodeRecordsUnfold(s);
      DecodeEncodedRecords(rs[1..], tail);
      assert DecodeRecords(s) == [rs[0]] + rs[1..];
    }
  }

  /** The i-th decoded record is the one `readTrace` returns at byte offset 8i. */
  lemma {:induction false} DecodedRecordIsReadAt(s: seq<byte>, i: nat)
    requires i < |s| / RECORD_SIZE
    ensures ReadTrace(s[RECORD_SIZE * i..]).Some?
    ensures DecodeRecords(s)[i] == ReadTrace(s[RECORD_SIZE * i..]).value.0
    decreases i
  {
    DecodeRecordsUnfold(s);
    if i > 0 {
      var rest := s[RECORD_SIZE..];
      assert |rest| / RECORD_SIZE == |s| / RECORD_SIZE - 1;
      DecodedRecordIsReadAt(rest, i - 1);
      var off := RECORD_SIZE * (i - 1);
      assert off + RECORD_SIZE == RECORD_SIZE * i;
      assert rest[off..] == s[RECORD_SIZE * i..];
    }
  }

  /** The i-th decoded record is made of bytes 8i .. 8i+8 of the input. */
  lemma DecodedRecordAt(s: seq<byte>, i: nat)
    requires i < |s| / RECORD_SIZE
    ensures RECORD_SIZE * i + RECORD_SIZE <= |s|
    ensures DecodeRecords(s)[i].pc == BE32(s[RECORD_SIZE * i .. RECORD_SIZE * i + WORD_SIZE])
    ensures DecodeRecords(s)[i].taken
            <==> exists j | RECORD_SIZE * i + WORD_SIZE <= j < RECORD_SIZE * i + RECORD_SIZE :: s[j] != 0
  {
    var off := RECORD_SIZE * i;
    var at := s[off..];
    DecodedRecordIsReadAt(s, i);
    assert at[..WORD_SIZE] == s[off .. off + WORD_SIZE];
    if DecodeRecords(s)[i].taken {
      var j :| WORD_SIZE <= j < RECORD_SIZE && at[j] != 0;
      assert s[off + j] != 0;
    } else {
      forall j | off + WORD_SIZE <= j < off + RECORD_SIZE
        ensures s[j] == 0
      {
        assert at[j - off] == s[j];
      }
    }
  }

  /**
   The i-th record of a parsed file is made of bytes 4+8i .. 4+8i+8: its PC is
   the big-endian value of the first four, and it is taken exactly when one of
   the last four is nonzero.
   */
  lemma ParsedRecordAt(file: seq<byte>, i: nat)
    requires |file| >= HEADER_SIZE
    requires i < (|file| - HEADER_SIZE) / RECORD_SIZE
    ensures HEADER_SIZE + RECORD_SIZE * i + RECORD_SIZE <= |file|
    ensures ParseTrace(file).value.records[i].pc
            == BE32(file[HEADER_SIZE + RECORD_SIZE * i .. HEADER_SIZE + RECORD_SIZE * i + WORD_SIZE])
    ensures ParseTrace(file).value.records[i].taken
            <==> exists j | HEADER_SIZE + RECORD_SIZE * i + WORD_SIZE <= j < HEADER_SIZE + RECORD_SIZE * i + RECORD_SIZE
                   :: file[j] != 0
  {
    var body := file[HEADER_SIZE..];
    var off := RECORD_SIZE * i;
    DecodedRecordAt(body, i);
    assert body[off .. off + WORD_SIZE]
           == file[HEADER_SIZE + off .. HEADER_SIZE + off + WORD_SIZE];
    if ParseTrace(file).value.records[i].taken {
      var j :| off + WORD_SIZE <= j < off + RECORD_SIZE && body[j] != 0;
      assert file[HEADER_SIZE + j] != 0;
    } else {
      forall j | HEADER_SIZE + off + WORD_SIZE <= j < HEADER_SIZE + off + RECORD_SIZE
        ensures file[j] == 0
      {
        assert body[j - HEADER_SIZE] == file[j];
      }
    }
  }

  /** Bytes after the last complete record never reach the decoder's output. */
  lemma {:induction false} PartialRecordDiscarded(s: seq<byte>)
    ensures DecodeRecords(s) == DecodeRecords(s[..|s| - |s| % RECORD_SIZE])
    decreases |s|
  {
    var cut := s[..|s| - |s| % RECORD_SIZE];
    if |s| >= RECORD_SIZE {
      var rest := s[RECORD_SIZE..];
      assert |rest| % RECORD_SIZE == |s| % RECORD_SIZE;
      PartialRecordDiscarded(rest);
      assert cut[RECORD_SIZE..] == rest[..|rest| - |rest| % RECORD_SIZE];
      ReadTraceLooksAhead(s, cut);
    } else {
      assert |cut| == 0;
    }
  }

  /** `readTrace` looks at nothing beyond the first 8 bytes. */
  lemma ReadTraceLooksAhead(s: seq<byte>, t: seq<byte>)
    requires |s| >= RECORD_SIZE && |t| >= RECORD_SIZE
    requires s[..RECORD_SIZE] == t[..RECORD_SIZE]
    ensures ReadTrace(s).value.0 == ReadTrace(t).value.0
  {
    assert s[..WORD_SIZE] == s[..RECORD_SIZE][..WORD_SIZE];
    assert t[..WORD_SIZE] == t[..RECORD_SIZE][..WORD_SIZE];
    assert forall i | WORD_SIZE <= i < RECORD_SIZE :: s[i] == s[..RECORD_SIZE][i] && t[i] == t[..RECORD_SIZE][i];
  }

  /** The header value has no influence on which records are read. */
  lemma HeaderIgnored(h1: seq<byte>, h2: seq<byte>, body: seq<byte>)
    requires |h1| == HEADER_SIZE && |h2| == HEADER_SIZE
    ensures ParseTrace(h1 + body).value.records == ParseTrace(h2 + body).value.records
  {
    assert (h1 + body)[HEADER_SIZE..] == body;
    assert (h2 + body)[HEADER_SIZE..] == body;
  }
}
