# Distributed object detection: coordinator and worker protocol

This project models the protocol of `distribute_processing_dynamic/`.
A coordinator (`server.py`) shares the detection of four object classes in one image among the workers connected to it: Person, Bicycle, Car and Motorcycle.
Each worker (`client2.py`) runs a detector on the image.

One round goes like this:

- The operator types "yes" at the coordinator.
- The coordinator sends every worker the pickled string "Check availability" and reads one reply of at most 1024 bytes.
- It keeps, in connection order, the workers whose reply lower-cases to exactly "yes".
- It shuffles the class ids `[0, 1, 2, 3]` and hands worker `idx` of `n` the slice `ids[idx::n]`.
- It sends every worker its pickled slice, then the pickled image. Each is a frame: an 8-byte big-endian length, then the payload.
- It reads each worker's reply until the worker closes the connection.
- It unpickles each reply and writes into a shared results dict, for every class assigned to that worker, the worker's list for it (or `[]`).

The worker does the following:

- It waits for the check, skipping other messages.
- It answers with the operator's stripped, lower-cased answer.
- After "no" it stops.
- After any other answer it reads two frames: the assignment and the image.
- It keeps the boxes of its assigned classes, sends the pickled dict back unframed, and stops.

## Modules

| module | what it models |
|---|---|
| `Wrappers` | Option and Result, for `None` returns and raised exceptions. |
| `Bytes` | Big-endian integers (the frame header), and ASCII `strip` and `lower`. |
| `Channel` | A TCP socket as the class `Connection`. The field `incoming` holds the deliveries the peer will make; the field `sent` holds every byte written. `recv(max)` is `Take`. Quantifying over deliveries covers every way the stream can be cut into reads. |
| `Framing` | The length-prefixed frame, its sender (`SendFrame`), its receiver (`ReceiveData`, which is `receive_data`) and the coordinator's read-until-close. |
| `Values` | The pickled values, and pickle itself as a `Codec` parameter whose `loads` yields `None` where Python raises. |
| `Partition` | The round-robin split `ids[k::n]`. |
| `Availability` | The "yes" test of the poll and the order-preserving selection of available workers. |
| `Detection` | `detect_object`: the class filter over the detector's boxes. The detector is a parameter. |
| `Merge` | The shared results dict and how each session writes into it. |
| `Coordinator` | `server.py`: the poll, the assignment, the image sends, the sessions and one whole round. |
| `Worker` | `client2.py`: `start_client` as a method over a `Connection`. Its specification is `RunSession`, a function of what the coordinator will deliver. |

The worker's methods are proved against functions on the deliveries: `StartClient` against `RunSession`, `AwaitCheck` against `AwaitPoll`, `Answer` against `Respond`, `DoWork` against `Work`, and `HandleImage` against `ImageStep`.

The worker's behaviour is then stated as lemmas about those functions:

- whether it writes at all;
- when it declines;
- the order of its reads;
- that it sends the result exactly once.

The coordinator's methods are stated against `Available`, `RoundRobin` and `Aggregate`. The lemmas about those functions give the round's guarantees:

- the poll keeps exactly the "yes" workers, in order;
- every class goes to exactly one worker;
- the merge does not depend on the order of the sessions;
- a full round covers all four classes.

## Model

| member | source | states |
|---|---|---|
| Bytes.ToBigEndian | distribute_processing_dynamic/server.py:38 | `to_bytes(8, "big")` of a length that fits yields exactly 8 bytes |
| Bytes.FromBigEndian | distribute_processing_dynamic/client2.py:38 | `int.from_bytes(..., "big")` of n bytes is below 256^n |
| Bytes.FromToBigEndian | distribute_processing_dynamic/client2.py:38 | decoding the header the coordinator writes gives back the payload length |
| Bytes.ToFromBigEndian | distribute_processing_dynamic/server.py:38 | every 8-byte header is the encoding of the value it decodes to, so the header encoding is a bijection |
| Bytes.TrimStart | distribute_processing_dynamic/client2.py:76 | the result is the suffix left after a run of whitespace, and it does not start with whitespace |
| Bytes.TrimEnd | distribute_processing_dynamic/client2.py:76 | the result is the prefix left before a run of whitespace, and it does not end with whitespace |
| Bytes.Strip | distribute_processing_dynamic/client2.py:76 | `strip()`: a contiguous slice of the input, with only whitespace cut on either side, that neither starts nor ends with whitespace |
| Bytes.LowerIdempotent | distribute_processing_dynamic/server.py:22 | lower-casing twice equals lower-casing once |
| Channel.Take | distribute_processing_dynamic/client2.py:64 | `recv(max)`: returns at most `max` bytes; the bytes returned plus what remains are exactly the bytes still to come; the result is empty only when the peer has closed |
| Channel.TakeWhole | distribute_processing_dynamic/client2.py:34 | a read of at least as many bytes as the current delivery holds returns that delivery whole |
| Channel.Connection.constructor | distribute_processing_dynamic/client2.py:58-59 | a fresh connection has sent nothing and will deliver exactly the given deliveries |
| Channel.Connection.Recv | distribute_processing_dynamic/client2.py:64 | a read consumes exactly what `Take` returns |
| Channel.Connection.SendAll | distribute_processing_dynamic/client2.py:77 | `sendall` appends all of its data to what was sent, after everything sent before |
| Framing.HeaderCapacity | distribute_processing_dynamic/server.py:38 | 8 header bytes hold exactly the lengths below 2^64 |
| Framing.EncodeFrame | distribute_processing_dynamic/server.py:36-39 | a frame exists exactly when the length is below 2^64; it is 8 + length bytes long, ends with the payload, and its header decodes to the length |
| Framing.ReadExactly | distribute_processing_dynamic/client2.py:42-47 | the payload loop fails only by the peer closing, and then nothing is left to read |
| Framing.ReadExactlyStream | distribute_processing_dynamic/client2.py:42-52 | the payload loop succeeds exactly when `need` more bytes arrive, returns exactly those bytes, and leaves all later bytes unread |
| Framing.ReceiveFrame | distribute_processing_dynamic/client2.py:34-36 | "Failed to receive data length" is raised exactly when the peer has closed before the header |
| Framing.ReceiveFrameWhole | distribute_processing_dynamic/client2.py:32-52 | with the whole header in the first read: success exactly when the stream holds 8 + length bytes; the payload is the `length` bytes after the header, and the rest is left |
| Framing.FrameRoundTrip | distribute_processing_dynamic/client2.py:32-52 | a frame built by the sender is received as the original payload, whatever the chunking after the header, and bytes after the frame stay unread |
| Framing.SplitHeaderMisread | distribute_processing_dynamic/client2.py:34-38 | for a non-empty payload shorter than 2^32 bytes: if its frame's header arrives as two 4-byte reads, the receiver decodes length 0, returns an empty payload and leaves the rest of the frame in the stream |
| Framing.ZeroHeaderRead | distribute_processing_dynamic/client2.py:34-43 | a short first read of zero bytes yields an empty payload and consumes only that read |
| Framing.SmallFrame | distribute_processing_dynamic/server.py:38 | the frame of a payload shorter than 2^32 bytes begins with four zero bytes |
| Framing.LeadingZeros | distribute_processing_dynamic/server.py:38 | an 8-byte big-endian value below 2^32 has four zero high bytes |
| Framing.FromBigEndianAppend | distribute_processing_dynamic/client2.py:38 | the big-endian value of `a + b` is `a`'s value shifted by `b`'s width, plus `b`'s value |
| Framing.SendFrame | distribute_processing_dynamic/server.py:50-54 | succeeds exactly when the length fits the header; writes the header then the payload, and nothing when `to_bytes` raises |
| Framing.ReceiveData | distribute_processing_dynamic/client2.py:32-52 | `receive_data` consumes from the socket and returns exactly what `ReceiveFrame` specifies; the final size check cannot fail |
| Framing.ReceiveUntilClose | distribute_processing_dynamic/server.py:59-66 | reading until the first empty read returns every byte the peer sent, in order, and drains the connection |
| Partition.RoundRobin | distribute_processing_dynamic/server.py:31-32 | one list per available worker |
| Partition.SliceAt | distribute_processing_dynamic/server.py:32 | the j-th class of worker k is the id at position k + j·n of the shuffled list |
| Partition.SliceFromList | distribute_processing_dynamic/server.py:32 | every id in a worker's slice comes from the shuffled list |
| Partition.SliceSizeBounds | distribute_processing_dynamic/server.py:32 | the length of `ids[k::n]` lies within the bounds that define the ceiling of (len − k) / n |
| Partition.SliceSize | distribute_processing_dynamic/server.py:32 | the length of `ids[k::n]` is the ceiling of (len − k) / n |
| Partition.SliceSizeMonotone | distribute_processing_dynamic/server.py:32 | a later starting index never gives a longer slice |
| Partition.RoundRobinBalanced | distribute_processing_dynamic/server.py:31-32 | any two workers' lists differ in length by at most one |
| Partition.CountMultiplicity | distribute_processing_dynamic/server.py:32 | the occurrence count of an element equals its multiplicity in the list's multiset |
| Partition.RoundRobinExact | distribute_processing_dynamic/server.py:31-32 | the split is a partition: the lists together hold every shuffled id exactly as often as the shuffled list does |
| Partition.ExactlyOneOwner | distribute_processing_dynamic/server.py:31-32 | for distinct ids: an id is assigned to some worker exactly when it is in the list, and never to two workers |
| Partition.FourWorkers | distribute_processing_dynamic/server.py:32 | with four workers and the four shuffled class ids, each worker gets exactly one id, the one at its own position in the shuffle |
| Partition.TwoWorkers | distribute_processing_dynamic/server.py:32 | with two workers and the four shuffled class ids, the first gets the ids at positions 0 and 2 and the second those at positions 1 and 3 |
| Availability.IsYesSpellings | distribute_processing_dynamic/server.py:22 | a reply counts as "yes" exactly when it is one of the eight case spellings of "yes" |
| Availability.NormalisedAnswerIsYes | distribute_processing_dynamic/server.py:22 | the coordinator's `lower()` of the worker's stripped, lower-cased answer changes nothing: that answer counts as "yes" exactly when it is "yes" |
| Availability.WhitespaceRejected | distribute_processing_dynamic/server.py:21-22 | the coordinator does not strip: a reply that starts or ends with whitespace is not "yes" |
| Availability.YesPositions | distribute_processing_dynamic/server.py:19-23 | the positions of the "yes" replies, all of them, strictly increasing |
| Availability.Available | distribute_processing_dynamic/server.py:17-24 | one available worker per "yes" reply |
| Availability.AvailableSelects | distribute_processing_dynamic/server.py:17-24 | the j-th available worker is the worker at the j-th "yes" position, so connection order is kept |
| Availability.AvailableEmpty | distribute_processing_dynamic/server.py:118-120 | nobody is available exactly when no reply is "yes" |
| Availability.AvailableMember | distribute_processing_dynamic/server.py:22-23 | a worker is available exactly when its own reply is "yes" |
| Availability.AvailableDistinct | distribute_processing_dynamic/server.py:17-24 | no worker is listed twice |
| Detection.OfClassAppend | distribute_processing_dynamic/client2.py:25-28 | filtering commutes with concatenation, so boxes keep their order across results |
| Detection.OfClassContents | distribute_processing_dynamic/client2.py:27-28 | the filter keeps every box of the class as often as it occurs, and no other box |
| Detection.FilterDetections | distribute_processing_dynamic/client2.py:24-29 | the keys are exactly the assigned classes, and each maps to that class's boxes in detection order |
| Detection.DetectObject | distribute_processing_dynamic/client2.py:11-29 | None exactly when the image does not open; otherwise a dict over the assigned classes of the filtered boxes; an error when the assignment is not a list of ids |
| Merge.MergeSession | distribute_processing_dynamic/server.py:80-81 | every assigned class is written, with the worker's list or `[]`; every other key keeps its value; no other key appears |
| Merge.ResultTable.constructor | distribute_processing_dynamic/server.py:126 | the results dict starts empty |
| Merge.ResultTable.Store | distribute_processing_dynamic/server.py:80-81 | the merge loop leaves the dict as `MergeSession` specifies |
| Merge.SessionsCommute | distribute_processing_dynamic/server.py:127-129 | two sessions with disjoint assignments give the same results in either order, so the thread interleaving does not matter |
| Merge.AggregateKeys | distribute_processing_dynamic/server.py:126-132 | a class has a result exactly when a worker assigned it sent back a dict |
| Merge.AggregateValue | distribute_processing_dynamic/server.py:80-81 | with disjoint assignments, a class maps to the list of the worker it was assigned to, or `[]` if that worker left it out |
| Merge.RoundCoversClasses | distribute_processing_dynamic/server.py:123-132 | when every worker reports a dict, the results have a key for each shuffled id and for nothing else |
| Merge.RoundRobinDisjoint | distribute_processing_dynamic/server.py:31-32 | the round-robin split of distinct ids assigns no id twice |
| Coordinator.ShuffledClassIds | distribute_processing_dynamic/server.py:27-28 | a shuffle of the class ids is repetition-free and holds exactly the ids 0–3 |
| Coordinator.FirstOverflow | distribute_processing_dynamic/server.py:31-39 | the index of the first assignment whose frame cannot be encoded; every payload before it fits |
| Coordinator.FirstOverflowAt | distribute_processing_dynamic/server.py:31-39 | `FirstOverflow` is the unique index where all earlier payloads fit and that payload, if any, does not |
| Coordinator.Broadcast | distribute_processing_dynamic/server.py:17-24 | every client is sent the pickled check and read once for at most 1024 bytes; the result is exactly the clients with a "yes" reply, in order |
| Coordinator.Poll | distribute_processing_dynamic/server.py:19-21 | each client gets the message appended to what it was sent, and its reply is one `recv(1024)` |
| Coordinator.SelectAvailable | distribute_processing_dynamic/server.py:18-24 | the selection loop returns exactly `Available` of the replies |
| Coordinator.Assign | distribute_processing_dynamic/server.py:26-43 | worker i is sent the frame of `ids[i::n]` for every i before the first overflow; the dict maps every worker to its slice exactly when no frame overflows; nothing is read |
| Coordinator.SendAssignments | distribute_processing_dynamic/server.py:31-39 | frames go out in order until the first one that cannot be encoded; workers after it get nothing |
| Coordinator.Tabulate | distribute_processing_dynamic/server.py:29-33 | the assignment dict has exactly the available workers as keys, each mapped to its own slice |
| Coordinator.SendImage | distribute_processing_dynamic/server.py:46-57 | the worker is sent the image frame, or nothing when it cannot be encoded |
| Coordinator.HandleClient | distribute_processing_dynamic/server.py:70-89 | an unassigned worker is left untouched; otherwise the image frame is sent, the reply read to the end, and the results changed only by merging a dict reply |
| Coordinator.Dispatch | distribute_processing_dynamic/server.py:126-132 | after all sessions, every worker has been sent the image and drained; the results are the sessions' merges in order |
| Coordinator.AwaitOperator | distribute_processing_dynamic/server.py:112-115 | the round starts at the first operator input that strips and lower-cases to "yes", and at no earlier input |
| Coordinator.RunRound | distribute_processing_dynamic/server.py:116-132 | every client is polled once; the round ends with no workers exactly when no reply is "yes", and aborts exactly when an assignment frame overflows; a client that did not say "yes" gets only the poll and is read only for its reply; the j-th "yes" client gets the poll, then its assignment frame, then the image frame, and is drained (`RoundFrames`); on an abort, only the workers before the overflowing frame get their assignment and none gets the image; when the round completes, the results are the aggregate of the workers' unpickled replies over the round-robin split |
| Coordinator.Serve | distribute_processing_dynamic/server.py:123-132 | aborted exactly on an assignment overflow; each available worker is sent its assignment frame, then the image frame, and is drained; on an abort, the workers before the overflow get only their assignment frame and are not read; when the sessions run, the results are the aggregate of the replies |
| Coordinator.FullRoundCoversClasses | distribute_processing_dynamic/server.py:123-132 | when every available worker reports a dict, the results hold exactly the keys 0, 1, 2 and 3 |
| Worker.StartClient | distribute_processing_dynamic/client2.py:62-100 | the session ends, reads and writes exactly as `RunSession` prescribes, and the socket receives exactly the trace's output |
| Worker.AwaitCheck | distribute_processing_dynamic/client2.py:63-75 | the loop stops exactly where `AwaitPoll` says, and writes nothing |
| Worker.Answer | distribute_processing_dynamic/client2.py:76-95 | sends the normalised answer, then stops on "no" or does the work, as `Respond` prescribes |
| Worker.DoWork | distribute_processing_dynamic/client2.py:82-95 | reads the assignment frame, then the image step, as `Work` prescribes |
| Worker.HandleImage | distribute_processing_dynamic/client2.py:86-95 | reads the image frame, filters, and sends the pickled detections once, as `ImageStep` prescribes |
| Worker.QuietTrace | distribute_processing_dynamic/client2.py:63-73 | a trace of received messages writes nothing and sends no result |
| Worker.AwaitPollOnlyReads | distribute_processing_dynamic/client2.py:63-75 | before the check the worker only reads: it stops only because the peer closed or sent undecodable bytes |
| Worker.SilentStop | distribute_processing_dynamic/client2.py:64-73 | a session ends by closure or bad message exactly when it stops before the check, and then it has written nothing |
| Worker.DeclinedSession | distribute_processing_dynamic/client2.py:76-79 | the worker declines exactly when the check arrives and its answer normalises to "no"; it then writes exactly "no" and reads nothing more |
| Worker.ImageStepShape | distribute_processing_dynamic/client2.py:86-95 | after the assignment, the worker reports (one frame read, then one send of the result, which is all it writes) or crashes having written nothing |
| Worker.WorkShape | distribute_processing_dynamic/client2.py:82-95 | the assignment frame is read first, then the image frame from the bytes after it, then the result is sent once; or the worker crashes having written nothing |
| Worker.ReportedSession | distribute_processing_dynamic/client2.py:63-95 | a reporting session is the skipped messages, the answer (not "no"), the assignment frame, the image frame and one result send, in that order; the worker writes only its answer and its result |
| Worker.ResultSentOnce | distribute_processing_dynamic/client2.py:92-95 | every session sends its result at most once, and exactly once when it reports |
| Worker.RespondSendsOnce | distribute_processing_dynamic/client2.py:76-95 | from the answer on, the result is sent at most once, and exactly once when the session reports |
| Worker.UnrecognisedAnswerWaits | distribute_processing_dynamic/client2.py:76-82 | the answer "maybe" is not "yes" to the coordinator, yet the worker goes on to wait for an assignment frame |
| Worker.BlankAnswerSendsNothing | distribute_processing_dynamic/client2.py:76-82 | an answer of only whitespace normalises to the empty string, which is not "no": the worker goes on to read an assignment frame, although its reply wrote no bytes |
| Worker.AssignmentArrives | distribute_processing_dynamic/client2.py:82-89 | with a codec whose `loads` inverts `dumps`, the assignment frame the coordinator builds for a list of classes (server.py:36-39) is read by the worker as exactly that list, and the image step starts on the bytes after the frame |

## Left out

- Socket setup is not modelled: `bind`, `listen`, `accept` of four clients (server.py:94-110) and `connect` (client2.py:58-59). The model starts from connected sockets.
- `close()` calls are not modelled (server.py:89, server.py:139, client2.py:100). Each peer's closure appears only as the end of the other side's deliveries.
- `pickle` is not modelled: it is a `Codec` parameter. Decoding what was encoded is not assumed, so every lemma holds for any codec; the only exception is `Worker.AssignmentArrives`, which takes it as a stated hypothesis.
- UTF-8 decoding and encoding of the replies are not modelled (server.py:21, client2.py:77). A reply that is not valid UTF-8 would raise in the coordinator.
- Text operations act on bytes. `strip` and `lower` are modelled on ASCII only.
- YOLO and PIL are not modelled (client2.py:12-21). The detector is a parameter from the image bytes to its results, or None when the image does not open. Box confidences are not modelled.
- Detection.Detect treats every assignment that is not a list of ids as an error. Python would iterate a bytes or dict value as if it were a list.
- The worker threads are not modelled (server.py:127-132). The sessions run one after the other; `Merge.SessionsCommute` justifies this for disjoint assignments.
- The join loop (server.py:131-132) joins only the last thread started. The coordinator may therefore show the results before other sessions finish; the sequential model does not capture this.
- `display_image_with_detections` (server.py:142-161) and every `print` are not modelled: they are output only.
- `main.py` is not modelled: it is a standalone detection script, not part of the protocol.
- `input()` is not modelled. The operator's inputs are parameters on both sides.
- The operator loop of `start_server` is split in two. `Coordinator.AwaitOperator` finds the first "yes"; `Coordinator.RunRound` is the body that follows.
- `ConnectionResetError` and failures in the middle of a `sendall` are not modelled. A write either writes all of its data or, when the header overflows, nothing.
- The channel models only reads that return: the next delivery, or the end of the stream once the peer has closed. A peer that neither sends nor closes cannot be written down, so the model does not capture the source's hangs. One example: the operator presses Enter at the worker. client2.py:77 then sends no bytes, and the worker waits for its assignment (client2.py:82, 34) while the coordinator waits for the reply (server.py:21), so the round never moves on. `Worker.BlankAnswerSendsNothing` states the worker's half. Likewise `receive_detection_from_client` (server.py:62-66) waits forever for a worker that never closes, since the source has no timeout.
- Framing.FrameRoundTrip requires the whole 8-byte header to arrive in the first read. `Framing.SplitHeaderMisread` shows what `receive_data` does otherwise.
- Coordinator.Tabulate builds the assignment dict after the frames are sent. server.py fills the dict while sending, but a failed send discards the dict, so the difference cannot be observed.
- Coordinator.Broadcast decides which clients to keep after all replies are in. server.py decides after each reply, but each decision reads only that reply, so the list is the same.
- Merge.Collect treats a reply that unpickles to anything but a dict as raising before the first write. This includes None, the worker's result when the image does not open.
