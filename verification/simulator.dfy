/**
 The simulator object: its counters and history state, the replay of a trace
 against the (constant) prediction, and the misprediction rate.

 Every `makePrediction` in this version of the program answers "taken", and the
 training step is empty, so a run only counts branches and not-taken branches;
 the history register and history array keep their initial values.
 */
module Simulator {
  import opened Bytes
  import opened Wrappers
  import opened Trace

  /** The members of `BPSimulator`: counters, table size and the (unused) history state. */
  datatype Simulator = Simulator(
    numBranches: uint32,
    numMispredict: uint32,
    memLimit: uint32,
    histRegister: uint32,
    histArray: seq<byte>)

  /**
   The predictor classes, each with its own `makePrediction`. Only `Base` is
   ever passed: `makePrediction` is not virtual, so the record loop in the base
   class always calls the base version. The other cases are here so that every
   class's stub is stated.
   */
  datatype Predictor = Base | Gshare | Bimodal | Tournament

  /** `makePrediction` of every class: a stub that predicts taken whatever the PC. */
  function MakePrediction(p: Predictor, pc: uint32): (r: bool)
    ensures r
  {
    true
  }

  /** The constructor `BPSimulator(memLimit)`. */
  function New(memLimit: uint32): (s: Simulator)
    ensures s.numBranches == 0 && s.numMispredict == 0 && s.histRegister == 0
    ensures s.memLimit == memLimit
    ensures |s.histArray| == memLimit
    ensures forall i | 0 <= i < |s.histArray| :: s.histArray[i] == 0
  {
    Simulator(0, 0, memLimit, 0, seq(memLimit, _ => 0))
  }

  /** The counters and the history state that a replay must not touch agree. */
  predicate SameHistory(s: Simulator, t: Simulator)
  {
    t.memLimit == s.memLimit && t.histRegister == s.histRegister && t.histArray == s.histArray
  }

  /**
   One iteration of the record loop in `predictHandler`: count the branch and,
   when the prediction disagrees with the outcome, the misprediction. The call
   is to the base class's `makePrediction`, which is not virtual.
   */
  function Step(s: Simulator, rec: Record): (t: Simulator)
    ensures SameHistory(s, t)
    ensures s.numBranches < 0xFFFF_FFFF ==> t.numBranches == s.numBranches + 1
    ensures s.numMispredict < 0xFFFF_FFFF ==>
              t.numMispredict == s.numMispredict + (if rec.taken then 0 else 1)
  {
    var mispredicted := MakePrediction(Base, rec.pc) != rec.taken;
    s.(numBranches := Inc(s.numBranches),
       numMispredict := if mispredicted then Inc(s.numMispredict) else s.numMispredict)
  }

  /** Number of records whose branch was not taken. */
  function NotTaken(rs: seq<Record>): (n: nat)
    ensures n <= |rs|
  {
    if |rs| == 0 then 0 else (if rs[0].taken then 0 else 1) + NotTaken(rs[1..])
  }

  /** Every record is counted as not taken exactly when no record was taken. */
  lemma {:induction false} AllNotTaken(rs: seq<Record>)
    ensures NotTaken(rs) == |rs| <==> forall i | 0 <= i < |rs| :: !rs[i].taken
  {
    if |rs| > 0 {
      AllNotTaken(rs[1..]);
      assert forall i | 1 <= i < |rs| :: rs[i] == rs[1..][i - 1];
    }
  }

  /** A `uint32_t` incremented k more times: the old value plus one, modulo 2^32. */
  lemma IncMod(a: uint32, k: nat)
    ensures (Inc(a) + k) % UINT32_MODULUS == (a + 1 + k) % UINT32_MODULUS
  {
    if a + 1 == UINT32_MODULUS {
      assert Inc(a) == 0;
    }
  }

  /**
   The record loop run over `rs` in order from `s`. Each counter ends up at its
   start value plus the number of events, wrapped like a `uint32_t`: all records
   for `numBranches`, the not-taken ones for `numMispredict`.
   */
  function Replay(s: Simulator, rs: seq<Record>): (t: Simulator)
    ensures SameHistory(s, t)
    ensures t.numBranches == (s.numBranches + |rs|) % UINT32_MODULUS
    ensures t.numMispredict == (s.numMispredict + NotTaken(rs)) % UINT32_MODULUS
    decreases |rs|
  {
    if |rs| == 0 then s
    else
      var s' := Step(s, rs[0]);
      IncMod(s.numBranches, |rs| - 1);
      IncMod(s.numMispredict, NotTaken(rs[1..]));
      Replay(s', rs[1..])
  }

  /**
   `predictHandler` on the trace file's bytes: when the header read fails
   nothing is counted; otherwise every complete record is replayed, whatever
   the header says.
   */
  function PredictHandler(s: Simulator, file: seq<byte>): (t: Simulator)
    ensures SameHistory(s, t)
    ensures |file| < HEADER_SIZE ==> t == s
  {
    match ParseTrace(file)
    case None => s
    case Some(trace) => Replay(s, trace.records)
  }

  /**
   The loop of `predictHandler` as written: skip the header, then call
   `readTrace` on the remaining bytes until it reports a short read.
   */
  method PredictHandlerLoop(s: Simulator, file: seq<byte>) returns (t: Simulator)
    ensures t == PredictHandler(s, file)
  {
    t := s;
    if |file| < HEADER_SIZE {
      return;
    }
    var pos := HEADER_SIZE;
    while true
      invariant HEADER_SIZE <= pos <= |file|
      invariant Replay(t, DecodeRecords(file[pos..])) == PredictHandler(s, file)
      decreases |file| - pos
    {
      var next := ReadTrace(file[pos..]);
      if next.None? {
        break;
      }
      t := Step(t, next.value.0);
      pos := pos + RECORD_SIZE;
      assert file[pos - RECORD_SIZE..][RECORD_SIZE..] == file[pos..];
    }
  }

  /** `Gshare(memLimit)`: construct the simulator, then run `predictHandler` on the trace. */
  function GshareRun(memLimit: uint32, file: seq<byte>): (t: Simulator)
    ensures t.memLimit == memLimit && t.histRegister == 0
    ensures t.histArray == seq(memLimit, _ => 0)
    ensures |file| < HEADER_SIZE ==> t.numBranches == 0 && t.numMispredict == 0
  {
    PredictHandler(New(memLimit), file)
  }

  /** Number of complete records in a trace file of the given length. */
  function RecordCount(fileLength: nat): nat
  {
    if fileLength < HEADER_SIZE then 0 else (fileLength - HEADER_SIZE) / RECORD_SIZE
  }

  /**
   With fewer than 2^32 records the counters do not wrap: a fresh run counts
   exactly the complete records after the header, and mispredicts exactly the
   not-taken ones, which never outnumber the branches.
   */
  lemma GshareCounts(memLimit: uint32, file: seq<byte>)
    requires RecordCount(|file|) < UINT32_MODULUS
    ensures GshareRun(memLimit, file).numBranches == RecordCount(|file|)
    ensures |file| >= HEADER_SIZE ==>
              GshareRun(memLimit, file).numMispredict == NotTaken(ParseTrace(file).value.records)
    ensures GshareRun(memLimit, file).numMispredict <= GshareRun(memLimit, file).numBranches
  {
    if |file| >= HEADER_SIZE {
      ReplayExact(New(memLimit), ParseTrace(file).value.records);
    }
  }

  /** Two trace files that differ only in their header give the same run. */
  lemma GshareIgnoresHeader(memLimit: uint32, h1: seq<byte>, h2: seq<byte>, body: seq<byte>)
    requires |h1| == HEADER_SIZE && |h2| == HEADER_SIZE
    ensures GshareRun(memLimit, h1 + body) == GshareRun(memLimit, h2 + body)
  {
    HeaderIgnored(h1, h2, body);
  }

  /**
   While the counters cannot wrap, `numMispredict <= numBranches` holds after
   every iteration, and from the j-th iteration to a later k-th one the branch
   count grows by exactly k - j while the misprediction count never decreases.
   */
  lemma {:induction false} ReplayMonotone(s: Simulator, rs: seq<Record>, j: nat, k: nat)
    requires j <= k <= |rs|
    requires s.numMispredict <= s.numBranches
    requires s.numBranches + |rs| < UINT32_MODULUS
    ensures Replay(s, rs[..j]).numBranches + (k - j) == Replay(s, rs[..k]).numBranches
    ensures Replay(s, rs[..j]).numMispredict <= Replay(s, rs[..k]).numMispredict
    ensures Replay(s, rs[..k]).numMispredict <= Replay(s, rs[..k]).numBranches
  {
    var pj, pk := rs[..j], rs[..k];
    NotTakenSplit(pk, j);
    assert pk[..j] == pj;
    ReplayExact(s, pj);
    ReplayExact(s, pk);
  }

  /** Without wrap-around the counters gain exactly the records and the not-taken records. */
  lemma ReplayExact(s: Simulator, rs: seq<Record>)
    requires s.numMispredict <= s.numBranches
    requires s.numBranches + |rs| < UINT32_MODULUS
    ensures Replay(s, rs).numBranches == s.numBranches + |rs|
    ensures Replay(s, rs).numMispredict == s.numMispredict + NotTaken(rs)
  {
    ModSmall(s.numBranches + |rs|);
    ModSmall(s.numMispredict + NotTaken(rs));
  }

  /** Values below 2^32 are their own remainder. */
  lemma ModSmall(x: nat)
    requires x < UINT32_MODULUS
    ensures x % UINT32_MODULUS == x
  {
  }

  /** Splitting a record sequence splits its not-taken count. */
  lemma {:induction false} NotTakenSplit(rs: seq<Record>, j: nat)
    requires j <= |rs|
    ensures NotTaken(rs) == NotTaken(rs[..j]) + NotTaken(rs[j..])
    decreases j
  {
    if j > 0 {
      NotTakenSplit(rs[1..], j - 1);
      assert rs[1..][..j - 1] == rs[..j][1..];
      assert rs[1..][j - 1..] == rs[j..];
    } else {
      assert rs[..0] == [];
      assert rs[0..] == rs;
    }
  }

  /**
   `getMispredictRate` as written: unsigned division of mispredictions by
   branches, undefined when no branch was counted.
   */
  function GetMispredictRate(s: Simulator): (r: uint32)
    requires s.numBranches > 0
    ensures r * s.numBranches <= s.numMispredict < (r + 1) * s.numBranches
  {
    DivBounds(s.numMispredict, s.numBranches);
    s.numMispredict / s.numBranches
  }

  /** The quotient q = n / d satisfies q * d <= n < (q + 1) * d. */
  lemma DivBounds(n: nat, d: nat)
    requires d > 0
    ensures (n / d) * d <= n < (n / d + 1) * d
  {
  }

  /**
   After a run that counted at least one branch, the integer rate is 1 exactly
   when every branch was mispredicted (every record not taken) and 0 otherwise.
   */
  lemma RateOfRun(memLimit: uint32, file: seq<byte>)
    requires RecordCount(|file|) < UINT32_MODULUS
    requires GshareRun(memLimit, file).numBranches > 0
    ensures GetMispredictRate(GshareRun(memLimit, file)) <= 1
    ensures GetMispredictRate(GshareRun(memLimit, file)) == 1
            <==> forall i | 0 <= i < RecordCount(|file|) :: !ParseTrace(file).value.records[i].taken
  {
    GshareCounts(memLimit, file);
    AllNotTaken(ParseTrace(file).value.records);
    var t := GshareRun(memLimit, file);
    RateIsZeroOrOne(t.numMispredict, t.numBranches, GetMispredictRate(t));
  }

  /** An integer quotient of n <= d by d is 1 when n == d and 0 otherwise. */
  lemma RateIsZeroOrOne(n: nat, d: nat, q: nat)
    requires 0 < d && n <= d
    requires q * d <= n < (q + 1) * d
    ensures q <= 1
    ensures q == 1 <==> n == d
  {
  }

  /** A trace file holding only its 4-byte header counts no branch at all. */
  lemma HeaderOnlyTraceHasNoBranches(memLimit: uint32, header: seq<byte>)
    requires |header| == HEADER_SIZE
    ensures GshareRun(memLimit, header).numBranches == 0
  {
    assert header[HEADER_SIZE..] == [];
  }

  /** The misprediction rate with the empty run handled: None when no branch was counted. */
  function MispredictRate(s: Simulator): (r: Option<uint32>)
    ensures r.None? <==> s.numBranches == 0
    ensures r.Some? ==> r.value * s.numBranches <= s.numMispredict < (r.value + 1) * s.numBranches
  {
    if s.numBranches == 0 then None else Some(GetMispredictRate(s))
  }
}
