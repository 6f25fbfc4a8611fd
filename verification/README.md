# Verified model of the moca-go-sdk transfer engine

This project models, in Dafny, the parts of the SDK that carry real logic, and proves what they keep.

* **Resumable download** (`DownloadSteps.dfy`, `Download.dfy`, `DownloadPlans.dfy`, `DownloadRuns.dfy`,
  `DownloadResume.dfy`, `DownloadRestarts.dfy`, `DownloadPlain.dfy`). A temp file survives crashes. Every call looks at its
  size, cuts it back to a part boundary, reopens it in append mode and fetches consecutive ranges. The
  model runs against an adversary that may fail the hook or the request, break a copy or kill the process
  after any byte, during the truncation, or around the final rename. Every intermediate state of the disk
  is the final state of a call that crashes there.
* **Resumable upload** (`Readers.dfy`, `Parts.dfy`, `Upload.dfy`, `UploadRuns.dfy`, `UploadNil.dfy`,
  `UploadExact.dfy`). A
  session asks the storage provider for its offset, skips whole parts of a reader and posts the rest. The
  reader hands out its bytes in pieces of its own choosing and may end early or break; the provider stores
  a prefix and may lose a request half way or lose the reply.
* **Kernels**: byte-range headers as the client reads them (`Ranges.dfy`) and as section 14.1.2 of RFC 9110
  does (`RangeStandard.dfy`), percent-encoding over UTF-8 (`PathEncoding.dfy`,
  `PathAlphabet.dfy`), the secret scalar of an
  off-chain key (`ScalarClamp.dfy`), the cross-chain batch builder with aliased integers (`Messages.dfy`),
  chunked file comparison (`CompareFiles.dfy`).

`GoSemantics.dfy` defines Go's truncating `/` and `%` and the shared types. Code that changes state in
Go is a class or a method with loops; each such method is proved equal to a step function on values, and
the theorems are about that function. Lemmas about one session often take its result `r`, or values such as
the first offset, as a parameter with an equation, so that the statement names each value once.

## What the proofs found

* A download interrupted right after its first part restarts from offset 0 without truncation and, since
  the file is opened in append mode, delivers the first part twice, also when that part is the whole
  payload (`DownloadRestarts.ExactPartRestartDuplicates`). All other restarts without a range are sound
  (`DownloadPlans.OnlyExactPartIsBad`). With a range, a restart is sound by size as
  `DownloadPlans.ResumeAlignment` says, and byte for byte as `DownloadRestarts.RestartExact` says; no size
  outside is harmless for every payload (`DownloadRestarts.BadSizeBreaksSomePayload`).
* After a failed copy the download closes its file but goes on requesting all the remaining parts, of which
  nothing is kept (`DownloadResume.LoopStops`).
* The download loop compares with `<` against an inclusive end, so the last byte is never fetched when its
  distance from the first fetched offset is a multiple of the part size (`DownloadPlans.Tiling`).
* A header such as `bytes=-5-` parses to a negative start (`Ranges.NegativeHeader`); the first call fails
  (`DownloadRestarts.NegativeStartRefused`) and a second call downloads everything from offset 0
  (`DownloadRestarts.NegativeStartForgotten`).
* ParseRange takes a suffix range such as `bytes=-5` for no range at all (`RangeStandard.ClientReading`), so
  the resumable download fetches everything where the plain one gets the last 5 bytes;
  `DownloadPlain.PlainDownloadAgrees` says for every header text whether the two agree.
* `putObjectResumable` returns nil when its reader fails or ends early; nil means a whole object exactly
  when the provider held it before or the reader reached its end (`UploadNil.NilMeansWhole`). A reader that
  ends inside the last part gets the truncated object marked complete (`UploadNil.TruncatedButComplete`),
  and an object of whole parts that the provider already holds is never marked (`UploadNil.NilMarksComplete`).
* The scalar's second highest bit, which the cited standard sets, is cleared, and bits 248 and 249 are
  cleared instead of the top bits the comment speaks of (`ScalarClamp.DeviatesFromRfc`).
* The fee comment says relayFee + minAckRelayFee; the code takes the caller's acknowledgement fee, and only
  the policy callbacks check it against the minimum.

## Model

| member | source | states |
|---|---|---|
| DownloadSteps.SegmentEnd | client/api_object.go:824-829 | the inclusive end of the part from begin: inside begin..total-1, less than per bytes on, and either the last byte or a full part |
| Download.PrepareTempFile | client/api_object.go:893-934 | the temp file is cut to the planned prefix and the loop starts at the planned offset (which those are: `DownloadResume.ResumeKeeps`) |
| DownloadSteps.WantedBytes | client/api_object.go:869-880 | byte i is wanted exactly when the option names no range or one that contains it |
| DownloadSteps.EffectivePartSize | client/api_object.go:856-867 | 32 MiB stand in for 0; refused exactly when not a multiple of the segment size |
| DownloadSteps.KeepWithinFile | client/api_object.go:902-928 | truncation never extends the file and a restart never starts below offset 0 |
| Download.ServeRequested | client/api_object.go:966-976 | SetRange accepts every range inside the payload, and a provider that reads the header by RFC 9110 answers with those bytes |
| Download.CopyBody | client/api_object.go:982-987 | a copy into an open handle appends exactly what arrives; into a closed one nothing; success only if all arrives and the handle is open |
| Download.DownloadPart | client/api_object.go:959-990 | one iteration: what it appends, whether the loop goes on, whether the handle is still open |
| Download.DownloadParts | client/api_object.go:957-994 | the loop and the final Close leave behind exactly the trace of the outcomes: bytes appended, verdict, ranges requested; nothing in the file before them changes |
| DownloadSteps.TraceMeans | client/api_object.go:957-994 | that trace is one contiguous slice of the payload from the first offset, of the length the outcomes allow, and the ranges asked for are a prefix of the tiling, all of it on success |
| Download.FinishSession | client/api_object.go:996-1000 | given how the loop and the Close ended, the rename happens exactly after success, and only it touches the destination |
| Download.RunSession | client/api_object.go:882-1003 | a whole call after the parameter checks, the refused Seek to a negative offset included, is one step of the disk |
| Download.FGetObjectResumable | client/api_object.go:832-1003 | the call, parameter checks included, is that step, or leaves the disk alone when the part size is refused |
| DownloadResume.ResumeKeeps | client/api_object.go:893-934 | for all sizes, range starts and part sizes, in plain arithmetic: a temp file longer than its first part loses less than one part, is cut at a part boundary, and the next offset is the one of that boundary; a shorter one is dropped |
| DownloadResume.KeepDetermined | client/api_object.go:896-928 | that description fixes the kept size |
| DownloadResume.RestartKeeps | client/api_object.go:893-990 | a call that finds a temp file and is killed after any number of bytes of its first part leaves exactly the kept bytes and those |
| DownloadResume.FirstCallStarts | client/api_object.go:874-990 | a call that finds none starts at the range start |
| DownloadResume.CutShort | client/api_object.go:882-934 | what a call leaves that is refused at the start or killed right after the truncation |
| DownloadResume.LoopStops | client/api_object.go:957-995 | which ranges are requested and how the loop ends, for all outcomes: a failed hook or request or the end of the process stops it, a failed copy does not |
| DownloadResume.CallEnds | client/api_object.go:832-1003 | the verdict of a call in every environment: success, error or crash |
| DownloadPlans.ResumeAlignment | client/api_object.go:893-934 | for all sizes, range starts (also negative) and part sizes, under Go's division: exactly when the offset fetched next is where the truncated file ends |
| DownloadPlans.GoodIsAligned | client/api_object.go:893-934 | for non-negative starts this is (size > first part and start < P) or (size < first part and start = 0) |
| DownloadPlans.OnlyExactPartIsBad | client/api_object.go:896-912 | without a range the only bad restart is from a temp file of exactly P bytes |
| DownloadPlans.Tiling | client/api_object.go:959-990 | the requested ranges are non-empty, in order, without gap or overlap, and end at the wanted end, or one byte earlier exactly when (end - start) % P = 0 |
| DownloadPlans.RequestsAnswered | types/option.go:310-325 | SetRange never refuses a requested range, and the header names exactly its bytes |
| DownloadPlans.LoopDone | client/api_object.go:959-995 | the handle closes without error exactly when every copy of the session succeeded |
| DownloadPlans.ClosedNeverDone | client/api_object.go:984-995 | once a copy failed no later iteration makes the call succeed |
| DownloadPlans.AppendedUntilFailure | client/api_object.go:959-990 | exactly how many bytes are appended: everything up to the first part that fails and what arrived of it, nothing after |
| DownloadPlans.OffsetsFit | client/api_object.go:824-829 | no offset overflows int64 when payload size plus part size fits |
| DownloadRuns.RenameSafety | client/api_object.go:936-1000 | the destination is replaced exactly when no cut-off happened, the Seek was accepted and every copy succeeded; otherwise it keeps its bytes |
| DownloadRuns.SessionKeepsPrefix | client/api_object.go:882-1000 | one call from a good restart, interrupted anywhere, leaves a prefix of the wanted bytes |
| DownloadRuns.SessionDelivers | client/api_object.go:882-1000 | a successful call delivers all wanted bytes, or all but the last one, by an exact condition on its first offset |
| DownloadRuns.RunsKeepPrefix | client/api_object.go:832-1003 | over every run of calls and crashes with good restarts, for any range and with part sizes that may change from call to call: temp file a prefix, destination untouched or delivered |
| DownloadRuns.FinishedWithoutRange | client/api_object.go:874-1000 | a run without a range that avoids the bad restarts and succeeds delivers the payload, or the payload without its last byte, exactly when (size - 1) % P is 0 for the last call's P (a last call with P = 1 may also find the payload complete) |
| DownloadRuns.LostByteBySize | client/api_object.go:959 | for P of at least 2 that is size % P = 1 |
| DownloadRuns.OneByteRunsLoseLast | client/api_object.go:959-990 | a run in which every call uses parts of one byte never holds the last byte |
| DownloadRestarts.RestartExact | client/api_object.go:893-990 | for every safe temp file, good restart or bad, and every range start: the written bytes are a prefix of the wanted ones if and only if nothing was fetched, or what was fetched stays inside the wanted bytes and equals those that follow the kept ones |
| DownloadRestarts.BadSizeBreaksSomePayload | client/api_object.go:893-990 | for every size outside the good restarts and every session there is a payload whose correct temp file of that size becomes an incorrect one exactly when the session appends anything |
| DownloadRestarts.ExactPartRestartDuplicates | client/api_object.go:908-938 | for every payload of at least P bytes and at least 2: interrupted after the first part and restarted, the call succeeds with the first part delivered twice |
| DownloadRestarts.NegativeStartRefused | client/api_object.go:869-945 | a first call with the header `bytes=-N-` never succeeds and fetches nothing, whatever happens to it |
| DownloadRestarts.NegativeStartForgotten | client/api_object.go:869-934 | once the empty temp file of that call exists, the same call is, in every environment, the download without a range |
| DownloadPlain.PlainDownloadAgrees | client/api_object.go:787-818 | for every header text, exactly when the resumable download aims at the bytes the plain one, which forwards the header, receives from a provider that follows RFC 9110 |
| DownloadPlain.SuffixDownloadsAll | client/api_object.go:869-880 | a suffix range shorter than the payload: plain download the last bytes, resumable download everything |
| RangeStandard.ClientReading | pkg/utils/utils.go:238-270 | for every valid single range of RFC 9110: ParseRange agrees on the forms with a first position that fit in int64, and takes a suffix or an overlong position for no range |
| Ranges.GetObjectOptions.SetRange | types/option.go:310-325 | the printed header, or an error that leaves the option alone |
| Ranges.RangeRoundTrip | types/option.go:310-325 | ParseRange reads back every header SetRange prints, with -1 for the open form |
| RangeStandard.SetRangeMeans | types/option.go:310-325 | exactly which pairs are accepted, and that the printed header has the meaning of the pair under RFC 9110 |
| Ranges.NegativeHeader | pkg/utils/utils.go:249-256 | `bytes=-N-` parses to the open range that starts at -N, for every N up to 2^63 |
| Ranges.ParseRangeExact | pkg/utils/utils.go:238-270 | for every text: a range from s to e if and only if the normalised text is `bytes=`, a number and a final dash (then e is -1), or `bytes=` and two numbers around its only dash; anything else is no range |
| Ranges.ListIsNoRange | pkg/utils/utils.go:258-269 | a list of ranges is no range |
| Ranges.NormalizeNext | pkg/utils/utils.go:242-243 | the normalisation, character by character: a space goes, a capital letter becomes its small one, the rest stays |
| Ranges.DigitsPositional | pkg/utils/utils.go:272-278 | digits are read in decimal positional notation |
| Ranges.DecimalValue | types/option.go:314-317 | `%d` prints digits that spell the number, without a leading zero |
| Ranges.SpacesIgnored | pkg/utils/utils.go:242-243 | a space inserted anywhere changes nothing |
| Ranges.CaseIgnored | pkg/utils/utils.go:242-243 | ASCII letter case changes nothing |
| Ranges.ParseInt64Exact | pkg/utils/utils.go:272-278 | a number is accepted with value v if and only if the text is an optional sign and digits spelling v, and v fits in int64 |
| Readers.ReadFull | pkg/utils/utils.go:280-313 | for every chunking: the buffer gets the next min(len, remaining) bytes, the stream advances by as many, err is nil iff the buffer is full, EOF iff nothing came, ErrUnexpectedEOF otherwise |
| Parts.FloatSplitIsExact | client/api_client.go:618-627 | for every rounding with the float64 properties: count is the integer ceiling, last part in 1..partSize, parts add up to the object |
| Parts.RoundedQuotient | client/api_client.go:621 | rounding the quotient cannot cross the integer below it |
| Parts.SegmentsConserve | pkg/utils/utils.go:206-215 | for all uint64 sizes: the segments add up to the payload exactly when the uint32 count is not zero and the sizes converted to int64 fit |
| Parts.SegmentsBounded | pkg/utils/utils.go:206-236 | for all uint64 sizes: all segments have 1..max bytes exactly when the count fits in 32 bits and the payload or the segment size fits in int64 |
| Parts.SegmentHolds | pkg/utils/utils.go:206-215 | segment by segment: segment i has max bytes from i*max on, or what is left; what an index behind the last one gets |
| Parts.PiecesCoverSegment | pkg/utils/utils.go:217-228 | for every segment size dataChunkNum pieces hold the segment with less than dataChunkNum bytes of padding |
| Parts.CountsAgree | pkg/utils/utils.go:230-236 | segment count and part count are the same function where both are exact |
| Upload.PutObjectResumable | client/api_object.go:487-625 | for every object size, part size, reader chunking and fate of its parts a session is one step of the provider, with the split float64 arithmetic gives; below 2^53 the exact split (where the step starts: `UploadExact.SessionStarts`) |
| Upload.PlanParts | client/api_object.go:509 | the split is the exact integer one for objects below 2^53 bytes and parts up to that |
| Upload.SkipParts | client/api_object.go:522-533 | where the skip loop leaves the part number and the reader |
| Upload.UploadParts | client/api_object.go:535-622 | the posts made, the bytes stored and whether nil is returned |
| UploadExact.SessionStarts | client/api_object.go:487-502 | for every reader and every fate: a created object goes on from the last part boundary below what the provider holds, any other object and a delegated upload from 0; a session that cannot learn its offset fails without a post |
| UploadExact.SessionStopsAfter | client/api_object.go:487-625 | with a reader of exactly the payload and parts accepted up to the j-th: the posts made, the bytes held, and nil exactly when all were accepted |
| UploadExact.SessionDecides | client/api_object.go:535-616 | for every reader: after j accepted whole parts the end of the object, the hook, the reader, the routing query and the network decide, in that order, and with which result |
| UploadRuns.IdealShape | client/api_object.go:535-616 | contiguous increasing offsets from (k-1)*P, non-empty parts, complete on exactly the last one |
| UploadRuns.IdealJoined | client/api_object.go:535-616 | the parts concatenate to the payload from (k-1)*P |
| UploadRuns.SessionPosts | client/api_object.go:487-625 | with a reader supplying exactly the payload, the posts are a prefix of the ideal ones from floor(offset/P)*P; all of them when nil is returned, and then the provider holds the whole payload |
| UploadRuns.SessionSafe | client/api_object.go:487-625 | any session whose reader supplies bytes of the payload, whatever split it computed, keeps the provider's bytes a prefix and never shrinks them |
| UploadRuns.RunsKeepPrefix | client/api_object.go:487-625 | the same over every run of interrupted and restarted sessions, with part sizes that may change |
| UploadNil.NilMeans | client/api_object.go:487-625 | for every stored prefix, origin and fate, and every reader that supplies m bytes of the payload and then ends or breaks: a session without failures returns nil; a nil session leaves the longer of the stored prefix and what the reader allowed; and exactly when it sent a complete mark |
| UploadNil.NilMeansWhole | client/api_object.go:542-549 | nil means the provider holds the whole payload if and only if it did before or the reader reached its end |
| UploadNil.NilMarksComplete | client/api_object.go:514-622 | with a reader of exactly the payload, a nil session sent a complete mark unless the provider already held a payload of whole parts |
| UploadNil.TruncatedButComplete | client/api_object.go:535-622 | a reader that ends inside the last part: nil and a complete mark for a truncated object |
| UploadRuns.ResumableHasSeveralParts | client/api_object.go:347-372 | for every size: exactly which calls are refused, and that the rest take the resumable route exactly when it is enabled and the object has at least two parts (or the part size is negative as an int64) |
| PathEncoding.EncodePath | pkg/utils/s3.go:11-42 | fast path and rune loop both compute the byte-by-byte encoding of the runes seen (which characters stay: `PathAlphabet.UnescapedNames`) |
| PathEncoding.EncodePathRoundTrip | pkg/utils/s3.go:11-42 | percent-decoding gives the name back if and only if it is valid UTF-8; output is unreserved characters, slashes and %XX |
| PathEncoding.EncodePathInjective | pkg/utils/s3.go:11-42 | two names encode alike exactly when they have the same runes; injective on valid UTF-8 |
| PathAlphabet.UnescapedNames | pkg/utils/s3.go:12-26 | a name is returned unchanged exactly when it is made of letters, digits, `-`, `.`, `_`, `~` and `/` |
| PathAlphabet.EncodesCharacters | pkg/utils/s3.go:18-40 | character by character: those stay, any other becomes the upper-case triples of its UTF-8 bytes, a stray byte those of U+FFFD |
| PathAlphabet.OneByteNames | pkg/utils/s3.go:18-40 | what becomes of every name of one byte |
| PathAlphabet.EncodingPositions | pkg/utils/s3.go:34-38 | every byte of an encoding is an unescaped character or part of a `%XX` triple |
| PathAlphabet.EncodeRuneStandard | pkg/utils/s3.go:28-34 | the runes with UTF-8 bytes are the scalar values, and the bytes are those of the table in section 3 of RFC 3629 |
| PathAlphabet.DecodeRuneExact | pkg/utils/s3.go:18 | the loop sees the scalar value whose bytes come first, or U+FFFD for one byte if there is none |
| PathEncoding.StepBack | pkg/utils/s3.go:18-34 | every rune of the loop can be encoded, so the early return for a negative length is dead |
| PathEncoding.TextIsValid | pkg/utils/s3.go:18-34 | the UTF-8 text of any scalar values is valid in the sense used above |
| ScalarClamp.ClampScalar | client/api_off_chain_auth.go:412-443 | the masks, reversal, load, bit clearing and store compute the scalar of the first 32 hash bytes; the stored bytes load back to it |
| ScalarClamp.ScalarBits | client/api_off_chain_auth.go:420-438 | the scalar is the little-endian hash value with exactly bits 3..247 and 250..252 kept |
| ScalarClamp.ScalarDetermined | client/api_off_chain_auth.go:420-438 | that determines it; it is a multiple of 8 below 2^253 |
| ScalarClamp.ScalarStored | client/api_off_chain_auth.go:440-443 | FillBytes and SetBytes give the same number back |
| ScalarClamp.DeviatesFromRfc | client/api_off_chain_auth.go:417-438 | bit by bit, exactly where it differs from section 5.1.5 of RFC 8032 |
| Messages.Builder.CalculateCallBackFee | bsctypes/message.go:81-95 | a fresh integer with the callback fee |
| Messages.Builder.FeeFor | bsctypes/message.go:407-416 | the fee of each kind of call in a fresh integer, and exactly which calls end the process |
| Messages.Builder.Append | bsctypes/message.go:97-119 | appends one message, to the contract that serves the call, with a fresh value object, and changes nothing else |
| Messages.OneHub | bsctypes/message.go:97-520 | every call has exactly one contract that serves it: bucket operations, object deletion, group operations, both policy forms, transfers; plain and callback forms alike |
| Messages.FeeLaws | bsctypes/message.go:81-520 | how the fees of the call kinds differ: amount, acknowledgement fee over the minimum, gas cost |
| Messages.FatalLaws | bsctypes/message.go:407-416 | only a policy callback below the minimum ends the process |
| Messages.Builder.Build | bsctypes/message.go:65-79 | three arrays of equal length in call order |
| Messages.SumValues | bsc/api_multi_messages.go:31-34 | the summing loop returns the sum of the values |
| Messages.TotalIsSum | bsc/api_multi_messages.go:31-34 | the total is the sum, over any cut of the fees |
| Messages.BuildBatch | bsctypes/message.go:97-520 | every chain of calls: messages in call order, each to the contract that serves its call and with exactly its fee in a value object of its own that did not exist before; stops exactly at a call that would end the process |
| Messages.RunBatch | bsc/api_multi_messages.go:20-43 | the value sent along is the sum of all fees, whatever integers alias, and nothing that existed before changes |
| CompareFiles.CompareInChunks | types/doc.go:34-61 | for every buffer size, true if and only if the contents are equal |
| CompareFiles.SameFiles | types/doc.go:11-62 | the same at the code's buffer size |

## Left out

- HTTP, gRPC, JSON-RPC, XML, signing, URL building, logging and progress printing: they rest on libraries whose code is not part of this model.
- Chain message construction in the other client files: straight-line wrappers.
- int64 wrap-around in `begin+per` and `partStartOffset += partSize`, and payloads of 2^63 bytes and more: download offsets are unbounded integers; `DownloadPlans.OffsetsFit` says when that makes no difference. A zero segment size or chunk number, on which Go panics, is outside the model.
- Download.FGetObjectResumable: part sizes of 2^63 and more, which the code turns into negative ones, are not modelled; neither are file-system errors other than an absent temp file, a refused Seek or a failed rename, concurrent writers, and handles leaked on early return. The provider is taken to honour the Range header.
- RangeStandard.ClientReading: a header that lists several ranges counts as ignored by the provider; the standard also lets it answer with several parts.
- Upload.PutObjectResumable: a float64 result outside the range of its integer type, which Go leaves to the platform, is an unbounded integer here; the single-request upload and the retry loop of the status query are left out.
- UploadNil.NilMeans: a reader that supplies more bytes than the object has, and objects for which the float64 split is not exact, are not covered.
- Readers.ReadFull: a reader's error is final, so errors that later go away and readers that return nothing forever are not modelled.
- Ranges.CaseIgnored: letter case is ASCII; no other character lower-cases to a letter of the prefix or a digit.
- Messages.Builder.Append: the builder's methods differ only in contract and packed data, so one method takes the call as a value; ABI packing is an opaque text.
- ScalarClamp.ClampScalar: the hash is an argument; hashing and curve arithmetic are left out.
- The SQL-injection and name checks, the gas buffers and the constant-bounded retry loops: each is one guard or constant that no modelled operation depends on.
