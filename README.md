# go-downloader: a Dafny model of its sequential core

The downloader (`download.go`, one Go file) fetches one HTTP resource in
pieces of `sizePerRoutine` = 100 bytes with `numRoutines` = 10 workers. A HEAD
request checks that the server supports byte ranges and reads the
Content-Length. The main routine hands start offsets to the workers over a
channel. Each worker sends a `Range: bytes=s-(s+99)` request and returns the
body. The main routine stores each body under its start offset and either
hands out the next offset or retires the worker. At the end it concatenates
the pieces in offset order.

This project models the deterministic parts of that program, as the code
writes them:

- `merge.dfy`, module `Merge`: `merge`, a loop over a map that walks the
  offsets 0, C, 2C, … (C = 100) and stops at the first offset after 0 that
  has no entry. It is specified by `Merged(m) = Flatten(m, FirstGap(m))`.
- `coordinator.dfy`, module `Coordinator`: the dispatch/collect bookkeeping of
  `main` as the class `Collector`. The class keeps the cursor `currentMax`,
  the WaitGroup counter `active`, the `data` map and a constant `cl`. Two
  ghost sequences record the offsets handed out and the pieces received.
  The constructor does `wg.Add` and the seeding loop. `Collect(start, body)`
  is one receipt on the data channel. It may be called with any start that
  was handed out and has not come back yet, so arrival order is arbitrary.
  The invariant keeps every received start among the handed-out ones, and
  received pieces plus running workers equal the offsets handed out. So when
  the counter reaches zero, every handed-out piece is in `data`.
- `send.dfy`, module `RangeRequest`: the `Range` value `Send` builds, and a
  reader for the int-range form of section 14.1.2 of RFC 9110
  (`bytes=first-last`, both ends inclusive). The reader is the partner the
  header is proved against.
- `head.dfy`, module `Probe`: `Head`'s decision on the `Accept-Ranges` and
  `Content-Length` header values.
- `decimal.dfy`, module `Decimal`: `%v` formatting and `strconv.Atoi` on a
  64-bit `int`. `Atoi` takes an optional `+` or `-` sign and then one or
  more digits.
- `download.dfy` and `wrappers.dfy`: the constants, the `partialData` record,
  a byte type, and Option/Result.

The model follows the code in these places, where a careful downloader
might behave differently:

- A start that arrives twice overwrites the earlier body. There is no
  duplicate error.
- `merge` stops silently at a gap. There is no merge error, and it does not
  check the result's length.
- Seeding hands out N offsets without comparing them with the Content-Length.
- The continuation test is `currentMax + C > cl`, so offset `cl` itself is
  handed out when C divides `cl` and `cl >= (N-1)C`. The number of offsets
  handed out is `max(N, floor(cl / C) + 1)`, not `ceil(cl / C)`.
- A negative Content-Length that reaches `Atoi` is accepted.
- Offsets at or past the end of the body are requested too: when C divides
  `cl`, and whenever `cl <= (N-1)C`. `Send` does not look at the response
  status, so whatever body comes back for such an offset is stored and
  merged after the content (`DownloadedContent`).

## Model

| member | source | states |
|---|---|---|
| `Merge.Merge` | download.go:180-193 | returns m[0] ++ m[C] ++ … ++ m[kC], where (k+1)C is the first multiple of C after 0 with no entry (`Merged(m)`); a missing key adds nothing; the `length` argument has no effect on the result, but it must not be negative because `make` panics on a negative capacity |
| `Merge.FirstGapFrom` | download.go:184-188 | the walk from index j stops at the first index g >= j whose offset gC is absent; every offset between jC and gC is present |
| `Merge.FirstGap` | download.go:182-188 | the stopping index of merge's walk is at least 1, its offset is absent, and every offset C … (g-1)C is present |
| `Merge.MergeReadsOnlyTheRun` | download.go:182-191 | two maps that agree on the entries at 0 … kC and on presence at C … (k+1)C merge to the same bytes: nothing else in the map is read |
| `Merge.MergeIgnoresKey` | download.go:184-191 | adding, replacing or removing a key that is negative, not a multiple of C, or past the first gap leaves the merged result unchanged |
| `Merge.MergeWithoutZero` | download.go:182-186 | with key 0 absent the result equals that for an empty body at 0, and the walk still continues at C (m[C] is a prefix of the result) |
| `Merge.MergeChunkedRoundTrip` | download.go:180-193 | merging the pieces a range server returns for a body (offsets iC below its length, each C bytes or up to the end) gives the body back; an empty body merges to empty |
| `Merge.MergeDownloaded` | download.go:180-193 | when the map holds the pieces of a body at every offset iC below its length, the merge is that body followed by the entries at the offsets from ceil(len/C)·C up to the first gap; for a non-empty body with no entry at ceil(len/C)·C it is the body exactly |
| `Merge.MergeContiguous` | download.go:182-191 | when the keys 0, C, …, (n-1)C are present and nC is absent, merge takes exactly those n pieces in ascending offset order |
| `Coordinator.StoreAll` | download.go:102 | storing a sequence of pieces keeps every key already present and makes every arrived start a key |
| `Coordinator.StoreAllLastWins` | download.go:102 | after a sequence of stores, the entry at a start is the body of the last piece that arrived with that start |
| `Coordinator.StoreAllUntouched` | download.go:102 | a key no arrival names keeps its earlier entry, or stays absent |
| `Coordinator.ArrivalOrderIrrelevant` | download.go:101-102 | with no start arriving twice, two arrival orders of the same pieces give the same map, hence the same merge |
| `Coordinator.Collector.constructor` | download.go:91-95 | seeding hands out exactly 0, C, …, (N-1)C in order and leaves currentMax = (N-1)C for every Content-Length; the counter starts at N and `data` is empty |
| `Coordinator.Collector.Exhausted` | download.go:103 | the continuation test fails exactly when floor((cl - currentMax) / C), the number of offsets still to hand out, is not positive |
| `Coordinator.Collector.Collect` | download.go:101-111 | for a start that was handed out and has not come back, stores data[start] = body and changes no other entry; if currentMax + C <= cl the cursor rises by exactly C and that offset is handed out, otherwise the cursor stays and the counter drops by one; the invariant holds again (handed-out offsets are consecutive multiples of C, those after seeding are <= cl, a retired worker means the cursor is exhausted); the receipts still owed drop by one |
| `Coordinator.Collector.Pending` | download.go:54-60 | the receipts still owed before the WaitGroup counter reaches zero; it is zero exactly when the counter is zero |
| `Coordinator.Collector.DispatchCount` | download.go:103-108 | once the cursor is exhausted, max(N, floor(cl/C) + 1) offsets have been handed out; if cl >= (N-1)C the last is cl - cl mod C, which is cl itself when C divides cl |
| `Coordinator.Collector.HandedOutOrdered` | download.go:93-106 | handed-out offsets are strictly increasing multiples of C, and each one after seeding lies in [0, cl] |
| `Coordinator.Collector.CompleteDownload` | download.go:112-126 | when the counter is zero, the keys received are exactly the offsets handed out, and merge concatenates all max(N, floor(cl/C) + 1) pieces in offset order |
| `Coordinator.Collector.DownloadedContent` | download.go:112-126 | when the pieces received below cl are those of a cl-byte body, the finished merge is that body followed by the pieces received for the offsets handed out at or past cl; there are such offsets exactly when cl <= (N-1)C or C divides cl |
| `Coordinator.Collector.Finish` | download.go:126 | the final merge of `data` with capacity currentMax + C is all max(N, floor(cl/C) + 1) handed-out pieces in offset order |
| `RangeRequest.RangeHeader` | download.go:144 | the Range value starts with `bytes=`, holds at least a digit, a dash and a digit after it, and its first position carries a minus sign exactly when the start is negative |
| `RangeRequest.RangeHeaderRoundTrip` | download.go:144 | for 0 <= s < e, `bytes=<s>-<e-1>` reads back as the inclusive range s … e-1, which covers exactly e - s bytes |
| `RangeRequest.RangeHeaderEmpty` | download.go:144 | for e <= s the header is not a valid int-range: its last position is below the first, or negative |
| `RangeRequest.WorkerRequestsOneChunk` | download.go:73 | a worker's request `Send(ctx, s, s+C)` names the C bytes s … s+C-1 |
| `Probe.Head` | download.go:168-176 | fails with the range error exactly when Accept-Ranges is not `bytes`; succeeds exactly when it is `bytes` and Atoi accepts the Content-Length; a returned length fits 64 bits |
| `Probe.HeadRequiresByteRanges` | download.go:168-170 | unless Accept-Ranges is exactly `bytes` the probe fails with the range error, whatever Content-Length holds |
| `Probe.HeadReadsFormattedLength` | download.go:172-176 | with range support, the decimal spelling of any 64-bit value (negative ones included) is returned as the length; larger values fail |
| `Probe.HeadSuccess` | download.go:168-176 | a successful probe saw Accept-Ranges `bytes` and returns a 64-bit value whose decimal spelling is the Content-Length text up to a plus sign, leading zeros and `-0` |
| `Probe.HeadAcceptsNegativeLength` | download.go:172 | `-<digits>` is accepted and yields a negative length |
| `Probe.HeadRejectsMissingLength` | download.go:172-175 | an absent Content-Length (empty header value) fails the probe |
| `Decimal.Atoi` | download.go:172 | a parsed value always fits a 64-bit int |
| `Decimal.AtoiFormatInt` | download.go:172 | Atoi inverts decimal formatting on every 64-bit value and rejects every other value |
| `Decimal.AtoiCanonical` | download.go:172 | whatever Atoi accepts is, up to a plus sign, leading zeros and `-0`, the decimal spelling of the value it returns |
| `Decimal.AtoiSigned` | download.go:172 | a leading `+` or `-` is accepted before the digits |
| `Decimal.AtoiRejects` | download.go:172 | the empty string, a lone sign, and any character that is neither a digit nor a leading sign are rejected |
| `Decimal.FormatInt` | download.go:144 | `%v` of an integer is a minus sign exactly for negative values, followed by one or more digits with no leading zero unless the value is 0 |
| `Decimal.NatToDecimal` | download.go:144 | `%v` of a natural number is one or more digits with no leading zero |
| `Decimal.DecimalOfNat` | download.go:144 | the decimal digits `%v` writes for a natural number have that number as their value |

## Left out

- Goroutines, the errgroup, the `sch`, `dch` and `endch` channels and the `select` statements (download.go:56-88, 96-117). Their point is concurrency. Arrival order is modelled as arbitrary calls to `Collect`.
- The context timeout and cancellation (download.go:45-49, 80-84, 109, 114). These are wall-clock and concurrency behaviour. The model assumes the collect loop ends only when the counter reaches zero.
- The HTTP transport in `Send` and `Head` (download.go:139-157, 162-166): request construction, `DefaultClient.Do`, `http.Head` and `io.ReadAll`. Only the header string and the header decision are modelled. `Head` takes the first value of each header, or "" when the header is absent.
- The transport's own checks on a response's Content-Length header are not modelled. It may refuse a malformed or negative value before `Head` reads the header, so `HeadAcceptsNegativeLength` describes only what `Atoi` does with a value that reaches it.
- Environment, file and console I/O (download.go:36, 41, 122, 129-134).
- Error wrapping with `github.com/pkg/errors`. Plain error variants stand in.
- Collect: integers are unbounded, so the model does not capture the 64-bit wrap of `currentMax + sizePerRoutine` that a Content-Length within 100 of 2^63 would cause.
- Atoi: syntax errors and range errors are one `None`. `Head` wraps both in the same way. The platform `int` is taken to be 64 bits.
- ParseByteRange reads only the single `bytes=first-last` form that `Send` writes. It does not read the case-insensitive unit, suffix ranges, lists or whitespace that section 14.1.2 of RFC 9110 also allows.
