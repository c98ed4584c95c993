# BPSimulator trace replay, modelled in Dafny

BPSimulator is meant to be a branch-predictor simulator. In this version of the
program the predictors are not written yet. Every `makePrediction` is a stub
that answers "taken". The training step inside the record loop is an empty
comment. The history register and the history array are set up by the
constructor and never used again. So what the program actually does is one
pipeline, and that pipeline is what this project models:

1. **Trace decoding.** The trace file starts with a 4-byte instruction-count
   word in network byte order. The program converts it with `ntohl` and then
   never uses it. After it come 8-byte records: a 4-byte big-endian program
   counter, then a 4-byte outcome word read in host order, where nonzero means
   "taken". A short read of the header, or of either half of a record, ends
   the trace, so a partial trailing record is dropped.
2. **Replay.** A fold over the decoded records. Each record adds one to
   `numBranches`, and adds one to `numMispredict` when the prediction
   (always "taken") differs from the outcome, that is, when the branch was
   not taken. Both counters are `uint32_t` and wrap around modulo 2^32. The
   model does that wrap-around explicitly.
3. **Rate.** `getMispredictRate` divides `numMispredict` by `numBranches` in
   unsigned integers, with no guard against zero.

The input is the file's contents as a `seq<byte>`, already read. The modules:

- `Bytes` (`bytes.dfy`): `uint32`, bytes, big-endian and host-order 4-byte
  words, and the big-endian encoder with round-trip lemmas.
- `Trace` (`trace.dfy`): `readTrace`, the decoder for the whole record
  stream, the header parse, and a trace encoder used as the decoder's inverse.
- `Simulator` (`simulator.dfy`): the `BPSimulator` state and constructor, the
  constant predictions, the record loop as a fold and as a `while` loop, the
  `Gshare(memLimit)` construction (which runs the loop), and the rate.
- `Wrappers` (`wrappers.dfy`): `Option`.

Facts about the program that the model follows:

- The outcome field is a 4-byte word read in host order, with no `ntohl`
  (BPSimulator/BPSimulator.cpp:149-151).
- `predictHandler` itself reads the leading count word and converts it with
  `ntohl` (BPSimulator/BPSimulator.cpp:86-90). The value is never used.
- `makePrediction` is not virtual, so `predictHandler` always calls the base
  version (BPSimulator/BPSimulator.cpp:30, :96). The subclasses' versions are
  never reached. All of them return `true`.
- `getMispredictRate` returns an unsigned integer quotient
  (BPSimulator/BPSimulator.cpp:106).

## Model

| member | source | states |
|---|---|---|
| `Bytes.Inc` | BPSimulator/BPSimulator.cpp:94-97 | `++` on a `uint32_t` counter: one more below the largest value, and 0 after the largest value |
| `Bytes.BE32` | BPSimulator/BPSimulator.cpp:90-93 | the `ntohl` value of a word read from the file is its big-endian value; it is zero exactly when all four bytes are zero |
| `Bytes.HostWord` | BPSimulator/BPSimulator.cpp:149-152 | the outcome word as read in host order (little-endian host); it is zero exactly when all four bytes are zero |
| `Bytes.EncodeBE32` | BPSimulator/BPSimulator.cpp:93 | every `uint32` value has a 4-byte big-endian form that decodes back to it |
| `Bytes.EncodeDecodeBE32` | BPSimulator/BPSimulator.cpp:93 | big-endian decoding is injective: re-encoding a decoded word gives back the same four bytes |
| `Bytes.ZeroIndependentOfByteOrder` | BPSimulator/BPSimulator.cpp:152-155 | whether the outcome word is zero does not depend on the byte order it is read in |
| `Trace.ReadTrace` | BPSimulator/BPSimulator.cpp:142-158 | a record is returned exactly when at least 8 bytes remain, and then the rest is everything after those 8 bytes; its PC is the big-endian value of bytes 0-3; it is taken exactly when one of bytes 4-7 is nonzero |
| `Trace.ReadTraceLooksAhead` | BPSimulator/BPSimulator.cpp:142-158 | the record read depends only on the first 8 bytes of the input |
| `Trace.ReadEncodedRecord` | BPSimulator/BPSimulator.cpp:142-158 | reading an encoded record gives back that record and exactly the bytes that follow it |
| `Trace.DecodeRecords` | BPSimulator/BPSimulator.cpp:92 | looping `readTrace` until it fails yields exactly one record per complete 8 bytes, i.e. length / 8 records |
| `Trace.DecodeRecordsUnfold` | BPSimulator/BPSimulator.cpp:92-100 | with a complete record at the front, the stream is that record followed by the records of the remaining bytes |
| `Trace.DecodeEncodedRecords` | BPSimulator/BPSimulator.cpp:92-100 | decoding an encoded record sequence with fewer than 8 trailing bytes gives back exactly that sequence |
| `Trace.DecodedRecordIsReadAt` | BPSimulator/BPSimulator.cpp:92 | the i-th record of the stream is the one `readTrace` returns at byte offset 8i |
| `Trace.DecodedRecordAt` | BPSimulator/BPSimulator.cpp:142-155 | the i-th record's PC is the big-endian value of bytes 8i to 8i+3, and it is taken exactly when one of bytes 8i+4 to 8i+7 is nonzero |
| `Trace.ParsedRecordAt` | BPSimulator/BPSimulator.cpp:86-93 | record i of a parsed file has as its PC the big-endian value of file bytes 4+8i to 4+8i+3, and is taken exactly when one of bytes 4+8i+4 to 4+8i+7 is nonzero |
| `Trace.PartialRecordDiscarded` | BPSimulator/BPSimulator.cpp:145-151 | bytes after the last complete record have no influence on the records decoded |
| `Trace.ParseTrace` | BPSimulator/BPSimulator.cpp:86-92 | parsing fails exactly when the file has fewer than 4 bytes; otherwise the count is the big-endian header word and there are (length - 4) / 8 records |
| `Trace.HeaderIgnored` | BPSimulator/BPSimulator.cpp:90-92 | the header value does not bound or change the records that are read |
| `Simulator.MakePrediction` | BPSimulator/BPSimulator.cpp:30 | the `makePrediction` of every class (base at :30, Gshare at :116, Bimodal at :127, Tournament at :137) predicts taken, whatever the PC |
| `Simulator.New` | BPSimulator/BPSimulator.cpp:63-68 | construction sets both counters and `histRegister` to 0, stores `memLimit`, and fills `histArray` with `memLimit` zeros |
| `Simulator.Step` | BPSimulator/BPSimulator.cpp:94-97 | one iteration adds one branch and, because the prediction is always taken, one misprediction exactly for a not-taken record, as long as the counter does not wrap; the history state is untouched |
| `Simulator.NotTaken` | BPSimulator/BPSimulator.cpp:96-97 | the number of not-taken records never exceeds the number of records |
| `Simulator.AllNotTaken` | BPSimulator/BPSimulator.cpp:96-97 | every record counts as not taken exactly when none of them was taken |
| `Simulator.Replay` | BPSimulator/BPSimulator.cpp:92-100 | after the loop, `numBranches` is its start value plus the record count, and `numMispredict` is its start value plus the not-taken count, both modulo 2^32; `memLimit`, `histRegister` and `histArray` are unchanged |
| `Simulator.PredictHandler` | BPSimulator/BPSimulator.cpp:85-100 | when the header read fails the simulator is returned unchanged; a run never changes the history state |
| `Simulator.PredictHandlerLoop` | BPSimulator/BPSimulator.cpp:85-100 | the `while (readTrace(...))` loop, which steps through the bytes 8 at a time, computes the same state as the record fold |
| `Simulator.GshareRun` | BPSimulator/BPSimulator.cpp:110-112 | constructing `Gshare(memLimit)` runs the trace; afterwards `memLimit` is stored, `histRegister` is 0 and `histArray` is `memLimit` zeros; a file shorter than 4 bytes leaves both counts at 0 |
| `Simulator.GshareCounts` | BPSimulator/BPSimulator.cpp:90-97 | with fewer than 2^32 records, `numBranches` is (length - 4) / 8, or 0 when the file is shorter than 4 bytes, whatever the header says; `numMispredict` is the number of not-taken records and is at most `numBranches` |
| `Simulator.GshareIgnoresHeader` | BPSimulator/BPSimulator.cpp:90-92 | two files that differ only in their header give the same final simulator |
| `Simulator.ReplayMonotone` | BPSimulator/BPSimulator.cpp:94-97 | without wrap-around, from any iteration to a later one `numBranches` grows by the number of iterations between them and `numMispredict` never decreases; `numMispredict <= numBranches` holds after every iteration |
| `Simulator.ReplayExact` | BPSimulator/BPSimulator.cpp:94-97 | without wrap-around, the loop adds exactly the record count to `numBranches` and the not-taken count to `numMispredict` |
| `Simulator.NotTakenSplit` | BPSimulator/BPSimulator.cpp:96-97 | the not-taken count of a prefix plus that of the suffix is the count of the whole trace |
| `Simulator.GetMispredictRate` | BPSimulator/BPSimulator.cpp:105-107 | needs `numBranches > 0`; the result is the integer quotient r with r * numBranches <= numMispredict < (r + 1) * numBranches |
| `Simulator.RateOfRun` | BPSimulator/BPSimulator.cpp:105-106 | after a run that counted a branch, the rate is at most 1, and it is 1 exactly when every record was not taken (every branch mispredicted) |
| `Simulator.HeaderOnlyTraceHasNoBranches` | BPSimulator/BPSimulator.cpp:86-94 | a file holding only its 4-byte header counts no branch, so `getMispredictRate`'s divisor is 0 |
| `Simulator.MispredictRate` | BPSimulator/BPSimulator.cpp:105-107 | the guarded rate: absent exactly when no branch was counted, otherwise the same integer quotient |

## Left out

- Gshare, Bimodal and Tournament prediction and training are not modelled: counter tables, history shifting, index derivation and the chooser. The program does not implement any of them. Every `makePrediction` returns `true` (BPSimulator/BPSimulator.cpp:30, :116, :127, :137). That stub is modelled, by `MakePrediction`. The training step is an empty comment (BPSimulator/BPSimulator.cpp:99).
- Opening the trace file is not modelled: the hard-coded path, the text-mode `fopen_s`, the try/catch that cannot catch its failure, and the unchecked stream. These are I/O. The file is modelled as its bytes, already read, with no text-mode CR/LF or end-of-file byte translation.
- `ntohl` is a foreign call. It is modelled only as big-endian decoding of four bytes (`BE32`). The outcome word is not byte-swapped, and the model reads it as a little-endian host word (`HostWord`). Only its zero-ness matters, and that does not depend on byte order.
- The `Bimodal()` and `Tournament()` constructors are not modelled. They pass the not-yet-initialised member `memLimit` to the base constructor, which is undefined behaviour. Only the `Gshare(memLimit)` construction, with an explicit table size, is modelled (`GshareRun`).
- The `printf`/`cout` diagnostics and `main` (which builds one `Gshare(32)`) are not modelled. They are output and program entry.
- The unused header value (`numInstructions`) is kept in `TraceFile` but has no effect, as in the program.
- GshareCounts: states exact counts only for traces of fewer than 2^32 records. Beyond that the `uint32_t` counters wrap. That wrap-around is still modelled in `Replay`, whose contract holds for every length.
- ReplayMonotone: states monotonicity and the `numMispredict <= numBranches` bound only while the counters cannot wrap. With 2^32 or more records `numBranches` returns to 0 and the bound fails, as it would in the program.

## Findings

| source | as written | input that shows it | evidently intended | confidence | as-written member | corrected member |
|---|---|---|---|---|---|---|
| BPSimulator/BPSimulator.cpp:105-107 | `numMispredict / numBranches` with no check that `numBranches` is nonzero | a trace file of 4 to 11 bytes (a header and no complete record), or one shorter than 4 bytes: `numBranches` stays 0 and the division is by zero | report that no rate exists when no branch was counted | medium; not executed (`getMispredictRate` has no caller in this version) | `Simulator.HeaderOnlyTraceHasNoBranches` | `Simulator.MispredictRate` |

`GetMispredictRate` models the division as written, so it requires a nonzero
branch count. `HeaderOnlyTraceHasNoBranches` shows that a real run can break
that requirement. `MispredictRate` is defined for every state. It is `None`
exactly when no branch was counted, and otherwise it is the same quotient.
