# Verification of the RFID server's tag-read pipeline

This project models zebra-rfid-server from the bytes a reader sends to the rows of `tag_reads`,
and proves what the pipeline promises about them. It also covers the store-and-forward file and
the login rate limiter. `dafny verify dfyconfig.toml` checks the whole project.

| file | what it models |
|---|---|
| `Bytes.dfy`, `Parameters.dfy`, `Reports.dfy`, `Frames.dfy` | `app/llrp.py`: big-endian fields, TLV/TV parameters (EPCglobal LLRP 1.0.1, section 16.2), report contents, the receive loop |
| `Epc.dfy`, `Decimal.dfy`, `Sscc.dfy` | `app/epc.py`: EPC text, schemes, SSCC-96 (section 14.5.2 of GS1 EPC Tag Data Standard 1.13), check digits (section 7.9.1 of the GS1 General Specifications) |
| `Sessions.dfy`, `Rfid.dfy` | the reference definition of sessions, and `app/rfid.py` |
| `Repository.dfy`, `Table.dfy` | `app/tag_read_repository.py` with the column limits of `app/models.py`, and what it makes of any saves in order |
| `Pipeline.dfy`, `Passage.dfy` | several aggregators feeding the table, and `reader_passage` of `app/api.py` |
| `Buffer.dfy`, `Server.dfy` | `app/buffer.py` and the persistence part of `app/main.py`, with faults |
| `RateLimiter.dfy` | `LoginRateLimiter` of `app/auth.py`, and sequences of `login` of `app/api.py` behind it |
| `EndToEnd.dfy` | any connections to rows in one statement, and with faults |
| `Failures.dfy` | concrete runs in which what holds otherwise fails |
| `Arithmetic.dfy`, `Sequences.dfy`, `Wrappers.dfy` | vocabulary and small facts |

Objects that change state are classes (`DuplicateAggregator`, `TagReadRepository`, `EventBuffer`,
`LoginRateLimiter`, `LLRPReceiver`, `Service`); each method is tied to a pure function or to the
full history of calls, kept in a ghost field, and the results about whole runs are lemmas.

Automatic induction is switched off on the lemmas that recurse, so an inductive proof is what its
body says, and on a few others where it costs too much.

Conventions. Times are integer microseconds, and windows are integers of either sign, so the
milliseconds of the settings are multiplied out; the floating-point comparison at
app/rfid.py:87 agrees with this for windows of up to a year. A row's key is
reader, EPC and antenna, the antenna being optional (`IS NULL`). A fault is a database outage
before the commit or between the commit and the end of the call (the `refresh` at
app/tag_read_repository.py:89). Clock readings, faults and the bytes of a stream are parameters.
A save is refused, whatever the database does, for an EPC that `parse_epc` raises on (which
includes one whose decimal form has more than 4300 digits, the limit of Python's `str` on
integers), for a reader that is not registered, and for values that overflow their columns
(app/models.py:45-55): an EPC of more than 128 characters, an antenna or channel beyond 32 bits, a
direction of more than 64 characters, a zone or location of more than 255, or a NUL character in
one of these. PostgreSQL drops blanks beyond the width of a text column instead of refusing them.

## What the proofs found

- A read with a `gps_timestamp` is lost when its first save raises before the commit:
  `_serialize` leaves the `datetime` as it is and `json.dumps` raises (`Server.GpsReadIsLost`,
  `Buffer.LineRoundTrip`); such payloads are accepted (`Failures.GpsPayloadIsLost`). The architecture
  document promises that the buffer takes every read.
- Buffered reads are delivered at a start if and only if no line up to them can never be saved: a
  fault-free start delivers exactly the lines before the first such line
  (`Server.FaultFreeStart`), so some later run takes a line out of the file just when none up to it
  is of that kind (`Server.DeliveredExactly`). This is modulo the refusals that the model cannot
  express, which the last section names under `Judge`. Such lines do arrive, go into the file under
  every fault and block it for good: twenty bytes from an LLRP reader make an event with an empty
  EPC (`Failures.EmptyEpcIsReceived`, `Failures.EmptyEpcBlocksTheFile`), and a TCP payload may hold
  a direction of 65 characters (`Failures.OverlongIsReceived`, `Failures.OverlongBlocksTheFile`).
- The rows of a key are its sessions if and only if no save adds a row of the key for a read that
  already stands for several events, for any saves in order (`Table.SessionsExactly`) and so for
  any run with faults and replays (`Server.ServerSessionsExactly`). In a run without faults this
  means that no accepted event starts a session while its aggregator remembers a refused one of the
  same key (`Pipeline.RunSessionsExactly`), as it can after an overlong direction
  (`Failures.RefusedEventStartsLate`). Events that fit their columns, as all of LLRP readers do,
  always meet it (`Pipeline.TableIsTheSessions`).
- Counts are exact if and only if no row is added for a read that already stands for several
  events, in any time order (`Repository.ConservationExactly`). A failed save replayed after a later
  read of its session breaks it (`Failures.LateReplay`).
- The passage counter stays exact if and only if no save pulls back the only row that remembers how
  late a tag was seen (`Passage.PassageStepExactly`). The same late replay breaks it.
- The two layers of duplicate suppression agree on a read, for any receivers and restarts with
  in-order saves, if and only if it starts a session for both or both have the same account of the
  session it continues (`Pipeline.LayersAgreeExactly`). If all events of the key fit their columns,
  that is when the read starts a new session or every read of the session came through its own
  aggregator since that aggregator's last restart (`Pipeline.LockStepExactly`). So the layers part,
  with clocks in order, when a tag is also read through another receiver
  (`Failures.OtherReceiverBreaksLockStep`) and when its receiver starts over
  (`Failures.RestartBreaksLockStep`). One receiver that keeps running stays in step
  (`Pipeline.LockStep`). With times in any order a read keeps its entry and its row in step if and
  only if no other recent row of the key has overtaken that row (`Pipeline.StepInAnyOrder`), which
  happens when a clock steps back (`Failures.BackwardClockBreaksLockStep`).
- An SSCC has 18 digits if and only if both fields are within their digits
  (`Sscc.EighteenDigits`): the bits allow larger numbers and the code does not check. In every
  partition some tag shows more (`Sscc.OverlongSscc`), and then different tags of one partition can
  show the same SSCC (`Sscc.SsccsCollide`).
- A report with a timestamp of the year 10000 or later makes the LLRP loop end with an exception
  that `serve_forever` does not catch (app/llrp.py:143-146), and none of the events of its frame are
  handed on, not even those before it (`Reports.ParseRoAccessReport`, `Frames.FramesAreConsumed`,
  `Failures.LateTimestampFailsTheFrame`).

## Model

| member | source | states |
|---|---|---|
| Epc.NormalizeIsIdempotent | app/epc.py:27-37 | A text is unchanged by normalising exactly when it is canonical (whole bytes, upper-case hexadecimal), results are canonical, and normalising twice is normalising once |
| Epc.SpellingsAgree | app/epc.py:27-37 | Letter case, white space around the text, blanks anywhere inside it and a leading 0x make no difference to the result |
| Epc.NormalizeExactly | app/epc.py:27-37 | Normalising accepts a text as an EPC exactly if the EPC is canonical and the text is a spelling of it: white space, listed character by character, around the digits in either case, perhaps after "0x" and with blanks in between |
| Epc.RefusalsExactly | app/epc.py:31-36 | Which texts are refused as empty, as half a byte, and for other characters |
| Epc.ParseExactly | app/epc.py:40-46 | What parsing gives: the canonical text, its number in decimal and four bits a digit, unless the number has more than 4300 digits |
| Epc.SchemeExactly | app/epc.py:49-54 | The scheme of an EPC is the one of twelve that its first two characters name, and none for other headers |
| Epc.FilterExactly | app/epc.py:57-58 | A filter lets through exactly the EPCs whose scheme it lists, so no unknown header; no filter lets through all |
| Epc.ShortEpcsParse | app/epc.py:40-46 | Every canonical EPC of at most 2149 digits, and so every one the table can hold, is parsed, and its decimal form is its value |
| Sscc.SsccTagsHaveSsccScheme | app/epc.py:49-64 | Every tag read as an SSCC-96 is of the SSCC-96 scheme for the reader's filter |
| Sscc.PackedFields | app/epc.py:90-105 | Packing filter, partition, company prefix, serial and low bits into 96 bits is undone by the field extraction |
| Sscc.EverySsccIsPacked | app/epc.py:88-105 | Every EPC accepted as an SSCC-96 is the packing of exactly the fields read from it, which are within their bits |
| Sscc.SsccFunctionsAgree | app/epc.py:61-112 | On every text the two SSCC functions, each with its own partition table and extraction, raise the same errors, give None on the same inputs, and where one gives the full SSCC the other gives the matching slice of it |
| Sscc.SsccShape | app/epc.py:78-83 | The serial without check digit is the matching slice of the full SSCC, the company prefix is the slice before it, and the whole checks |
| Sscc.ReturnedIsFull | app/epc.py:86-112 | Every SSCC ever returned is that of fields within their bits, so the results on fields cover all returns |
| Sscc.EighteenDigits | app/epc.py:102-112 | A full SSCC never has fewer than 18 digits, and has 18 exactly when company prefix and serial fit their digits |
| Sscc.OverlongSscc | app/epc.py:102-112 | In every partition there is a tag whose decoded SSCC has more than 18 digits |
| Sscc.SsccRoundTrip | app/epc.py:86-112 | For every partition and all in-budget fields, decoding a packed tag gives 18 checked digits from which both fields are read back |
| Sscc.SsccByHand | app/epc.py:61-112 | For a tag of given numbers (header, filter, partition, company, serial and low bits, each in its place of the 96 bits) that fit their digits: the eighteen digits in order, with check digit weights of three and one written out, and the short form |
| Sscc.NoSsccExactly | app/epc.py:64-77 | Both functions give None exactly for lengths other than 24, headers other than 31 and partition 7 |
| Sscc.SsccSumsByHand | app/epc.py:108-112 | In an SSCC of any length, three times the digits at even distance before the check digit plus the others is divisible by ten |
| Sscc.SsccExample | app/epc.py:86-112 | Tag 31D55CD1D800000001000000 shows 057150620000000015, and 000000001 in short |
| Sscc.SsccIsInjective | app/epc.py:86-112 | Within a partition a tag shows the SSCC of an in-budget one exactly when company and serial agree; filter and low bits never matter |
| Sscc.SsccsCollide | app/epc.py:102-112 | Outside the budget two tags with different fields show one SSCC |
| Sscc.SsccDetectsErrors | app/epc.py:107-112 | A returned SSCC of any length checks; any single wrong digit is detected, and a swap of neighbours exactly when they differ by something not divisible by 5 |
| Decimal.CheckDigitIsUnique | app/epc.py:108-112 | Of the ten possible last digits the computed one is the only one that makes the number check |
| Decimal.EighteenByHand | app/epc.py:108-112 | Eighteen digits check exactly if three times those at even positions plus those at odd positions is divisible by ten |
| Decimal.CheckedByHand | app/epc.py:108-112 | The same for any length, counted from the right |
| Decimal.SingleErrorDetected | app/epc.py:108-112 | A checked number with one digit changed does not check |
| Decimal.SwapDetected | app/epc.py:108-112 | Exactly which swaps of neighbours are detected |
| Decimal.PadLength | app/epc.py:106-107 | Zero padding gives the asked width exactly when the number fits into it |
| Decimal.DecimalExample | app/epc.py:106-107 | Pinned values of decimal text, padded to and beyond its width |
| Decimal.DigitsAreListed | app/epc.py:109 | The ten digits, in the order of their values |
| Decimal.PadValue | app/epc.py:106-107 | The number is read back from its padded text |
| Rfid.SimulatorEventsAreCoherent | app/rfid.py:40-59 | An accepted JSON event carries canonical EPC text, the same for every spelling, which is also the key of its row |
| Rfid.SimulatorEventExactly | app/rfid.py:46-75 | Which payloads are refused, and that the event of any other has its values one by one, the EPC in canonical text and no reader time |
| Rfid.AggregateSummarises | app/rfid.py:83-98 | For times in any order, the aggregator's entry of every key is the trailing session of that key's own history: latest event, first and last time, length, duplicate when longer than one |
| Rfid.TrailingIsTail | app/rfid.py:87-96 | The read of a trailing session, time by time: its count is the length of the longest tail of the history whose gaps are within the window, with the first and last times of that tail and the last event |
| Rfid.DuplicateAggregator.Process | app/rfid.py:83-98 | Returns and remembers the trailing session of the event's key in the full history |
| Sessions.RunsAreTheSessions | app/rfid.py:87-96 | The runs are the one way to cut a time line into pieces with gaps within the window, cut only at larger gaps |
| Repository.TagReadRepository.Save | app/tag_read_repository.py:16-90 | Which reads raise (bad or too long EPCs, unknown readers, values that overflow their columns), are filtered or are accepted, the new tables, and the row returned |
| Repository.JudgeExactly | app/tag_read_repository.py:18-24 | A read with a parsed EPC is accepted exactly if its reader is registered, has no filter or one that lists the scheme named by the first two characters, and all values fit their columns; it is dropped exactly if the scheme is not listed, and refused otherwise |
| Repository.BadEpcsAreRefused | app/tag_read_repository.py:18 | A read whose EPC does not parse is refused |
| Repository.FitsExactly | app/models.py:49-55 | Which channels, directions, zones and locations fit, in numbers |
| Repository.KeptExactly | app/tag_read_repository.py:44-57 | The columns keep every detail, cut at the width of its column |
| Repository.SaveExactly | app/tag_read_repository.py:26-28 | An accepted save sets its reader to receiving data, last seen and last data at the read's time, and leaves its filter and all other readers |
| Repository.UpsertExactly | app/tag_read_repository.py:29-90 | Column by column: the latest row of the same reader, EPC and antenna seen within the window gets the new last time, one more count and the new details and keeps the rest; if there is none, a row is added with the values of the read |
| Repository.TagReadRepository.Record | app/tag_read_repository.py:29-90 | Merging into the newest recent row of the key or adding a row, and one log entry |
| Repository.Newest | app/tag_read_repository.py:29-39 | The lookup finds the latest row of the key within the window, the oldest of those that tie, or none exists |
| Repository.NewestIsLast | app/tag_read_repository.py:29-39 | When the rows of a key end in order, the lookup finds the key's last row or nothing, and ties cannot occur |
| Repository.RowsAreWellMade | app/tag_read_repository.py:18-24 | Over any saves, every row is of a registered reader and an allowed scheme, with canonical EPC and its bit length, and its other values within their columns |
| Repository.WellMadeExactly | app/tag_read_repository.py:18-24 | What that means for a row, value by value |
| Repository.ReadersShowLastSave | app/tag_read_repository.py:20-28 | Over any saves, a reader's status and times are those of its own last accepted save, or untouched |
| Repository.ConservationExactly | app/tag_read_repository.py:40-82 | Over any saves in any order, the counts grow by one per accepted save if and only if no save adds a row for a read that already stands for several events; else by more |
| Table.TableFollows | app/tag_read_repository.py:29-87 | Over any saves in order, however aggregated, the rows of a key are one per session of its accepted saves, from first to last, with the count and first time of the read that added the row carried along |
| Table.SessionsExactly | app/tag_read_repository.py:29-87 | Over any saves in order the rows of a key record its sessions if and only if none was added for a read that already stands for several events |
| Pipeline.RunSessionsExactly | app/tag_read_repository.py:29-87 | For any receivers and restarts in order, the rows of a key are its maximal sessions with first time, last time and length if and only if no accepted event of the key starts a session while its aggregator remembers an event of the key within the window |
| Pipeline.RunCountsExactly | app/tag_read_repository.py:40-82 | The counts add up to the accepted events if and only if this holds of every key |
| Pipeline.TableIsTheSessions | app/tag_read_repository.py:29-87 | If every event fits its columns, the rows of each key are its sessions and the counts add up |
| Table.RowsAreApart | app/tag_read_repository.py:29-42 | Over any saves in order, rows of one key cover disjoint intervals more than the window apart |
| Table.EverySaveInARow | app/tag_read_repository.py:40-87 | Over any saves in order, every accepted save lies in the interval of a row of its key |
| Pipeline.RunSavesReads | app/main.py:25-30 | The database of any run is that of saving the aggregated reads in order, and its log is the accepted receipts in order |
| Pipeline.LayersAgreeExactly | app/main.py:21-69 | After any run of any receivers and restarts, in order per key, aggregator and table agree on the next accepted read (duplicate exactly when there is a row to merge into, and then the same first time, last time, count and details) if and only if it starts a session for both, or continues one of which both have the same first time and count |
| Pipeline.LockStepExactly | app/main.py:21-69 | If the key's events fit their columns, they agree if and only if the read starts a session or every read of its session came through that aggregator since its last restart |
| Pipeline.LockStep | app/rfid.py:83-98 | One aggregator that never restarts agrees with the table on every accepted in-order read of a key whose events fit |
| Pipeline.StepInAnyOrder | app/tag_read_repository.py:29-42 | With times in any order, an entry that tracks a row stays in step with it on the next read if and only if no other recent row of the key has overtaken that row, and then tracks the row touched |
| Table.LookupFindsTheSession | app/tag_read_repository.py:29-39 | The windowed lookup finds a row exactly when the new time continues the key's last session |
| Passage.AgreeIsSameAnswers | app/api.py:221-252 | Two sources give the same passages for all readers, windows and moments exactly when they know the same latest time of every tag |
| Passage.ReportExactly | app/api.py:222-238 | Not found exactly for unknown readers; empty for readers not seen in the last 30 seconds |
| Passage.ReportOfPassage | app/api.py:239-251 | Else the total is the number of different EPCs seen at the reader from the passage window before its latest sighting on, and each serial number is listed as often as there are such EPCs that have it |
| Passage.PassageStepExactly | app/tag_read_repository.py:40-42 | While table and log answer alike, an accepted save keeps it so if and only if it does not pull back the only row remembering a tag's latest time |
| Passage.PassageFromTable | app/api.py:221-252 | Over any in-order saves the passage report from the compressed table equals that from the full log |
| Bytes.BigEndian | app/llrp.py:72-114 | Each unsigned integer format in terms of its bytes |
| Bytes.TwosComplement | app/llrp.py:114 | The signed byte is the number from -128 to 127 with the same bits |
| Bytes.HexOfAt | app/llrp.py:106-108 | The two digits of every byte in hexadecimal text |
| Bytes.HexDigits | app/llrp.py:106-108 | The sixteen digits, in the order of their values |
| Parameters.First | app/llrp.py:61-76 | A parameter read is well formed, is the start of the data, and takes at least two bytes |
| Parameters.TvLengthsExactly | app/llrp.py:20-35 | The lengths of the fourteen TV kinds, as a list |
| Parameters.EncodedBytes | app/llrp.py:61-76 | The wire form of a parameter, byte by byte |
| Parameters.ParseParameters | app/llrp.py:57-78 | The loop returns the parameters characterised by the lemmas below |
| Parameters.ParsedExactly | app/llrp.py:57-78 | On any bytes the result is the one list of well-formed parameters (reserved bits kept) whose encoding starts the data and leaves a rest that starts with none |
| Parameters.StopsOnlyAtGarbage | app/llrp.py:65-75 | The parser stops exactly where no well-formed parameter is written |
| Parameters.ParameterRoundTrip | app/llrp.py:57-78 | Encoded parameters are read back in full |
| Parameters.ParsesApart | app/llrp.py:57-78 | Data that is fully read parses apart from what follows it |
| Parameters.TruncationKeepsAPrefix | app/llrp.py:57-78 | Cutting the data short only removes parameters at the end |
| Reports.MessageRoundTrip | app/llrp.py:40-54 | A built message declares its length and gives back type, id and payload |
| Reports.MessageBytes | app/llrp.py:52-54 | The ten header bytes of a built message, one by one |
| Reports.HeaderBytes | app/llrp.py:40-49 | Type, length and id of a header from its bytes |
| Reports.ReportFrameExactly | app/llrp.py:82-85 | Reports are the frames of type 61 that declare their own length, in bytes |
| Reports.EventExactly | app/llrp.py:115-125 | The event of a report holds the report's fields, the report in hexadecimal and nothing else |
| Reports.LastFieldExactly | app/llrp.py:101-114 | Of several valid parameters of a kind the last counts |
| Reports.TagReportsExactly | app/llrp.py:87-92 | Exactly the TLV parameters of kind 240 are read as tag reports |
| Reports.EpcDataExactly | app/llrp.py:102-106 | The EPC of a parameter of kind 241 is, digit by digit, as many of its bytes as the bit count calls for, and none if they are not all there |
| Reports.Epc96Exactly | app/llrp.py:107-108 | The EPC of a TV parameter 13 is all of its twelve bytes |
| Reports.NoEpcElsewhere | app/llrp.py:102-108 | No other parameter holds an EPC |
| Reports.OtherFieldsExactly | app/llrp.py:109-114 | Antenna, RSSI and timestamp of a parameter from its bytes, and which timestamps are out of range |
| Reports.LowerHexWrites | app/llrp.py:124 | The raw payload is the report in lower-case hexadecimal, digit by digit |
| Reports.ParseTagReport | app/llrp.py:96-125 | Raises exactly when some timestamp is out of the range of a datetime; else no EPC, no event, and each field is that of the last valid parameter of its kind |
| Reports.ParseRoAccessReport | app/llrp.py:81-93 | The events of the tag reports of a well-formed report message, in order, and nothing for any other frame; raises when parsing any of its tag reports does |
| Reports.ReportRoundTrip | app/llrp.py:52-125 | A report message built from any tag reports and other parameters yields one event per report with an EPC, in order, with the fields the sender gave last, and raises exactly when one of its reports holds a timestamp out of range |
| Reports.ReadingsRoundTrip | app/llrp.py:96-125 | A report message written from EPC, antenna, RSSI and time of any readings yields, in order, events with these values, or raises exactly when a time is too late |
| Reports.ReportsAreCoherent | app/llrp.py:102-108 | A report's EPC is unchanged by normalising, or is empty and refused by it |
| Reports.FramesAreCoherent | app/llrp.py:81-125 | Whatever the bytes, events are stored under the key they are aggregated by and hold no channel, text or GPS time |
| Frames.FramesAreConsumed | app/llrp.py:149-169 | Whole frames followed by a tail on which the loop ends (too short, an impossible length, or a report it cannot parse) cause exactly the frames' actions, in order, and the end the tail calls for |
| Frames.EveryStreamIsFrames | app/llrp.py:152-156 | Every stream is whole frames and such a tail |
| Frames.LoopExactly | app/llrp.py:149-169 | One turn of the loop: it ends for fewer than ten bytes, a declared length below 10 or above 65536, too few bytes for it or a report that cannot be parsed, and else goes on after the frame |
| Frames.KeepaliveExactly | app/llrp.py:157-162 | A frame of type 62 is answered with the ten bytes of type 72 and the same id, and nothing else happens |
| Frames.OthersExactly | app/llrp.py:163-164 | Any other frame is handed on event by event |
| Frames.CutStreamIsAPrefix | app/llrp.py:149-169 | The actions on a stream cut short are a prefix of those on the whole |
| Frames.CutStreamReadsAreAPrefix | app/llrp.py:163-164 | So are the aggregated reads handed on, whatever the aggregator knew before |
| Frames.KeepalivesAreAcknowledged | app/llrp.py:157-164 | One ten-byte acknowledgement per KEEPALIVE, in order, with its id, and no other writes; the events are those of the other frames |
| Frames.LLRPReceiver.Consume | app/llrp.py:149-169 | The loop's writes and events over the whole stream, with every event passed through the aggregator in order |
| Frames.LLRPReceiver.ReadFrame | app/llrp.py:152-156 | A whole frame, or the reason there is none |
| Frames.LLRPReceiver.HandleFrame | app/llrp.py:157-164 | One turn of the loop |
| Buffer.LineRoundTrip | app/buffer.py:38-61 | A read can be written as JSON, and is then read back, exactly when it has no GPS time |
| Buffer.EventBuffer.Append | app/buffer.py:14-17 | Raises exactly for reads with a GPS time; else adds the read at the end |
| Buffer.EventBuffer.Replay | app/buffer.py:19-36 | Saves in order up to the first failure, returns how many, and keeps exactly the rest |
| Buffer.EventBuffer.SaveLines | app/buffer.py:22-31 | The loop of the replay, which is the state a crash before the rewrite leaves |
| Buffer.TrySave | app/tag_read_repository.py:16-90 | What a save under each fault leaves in the database and whether it raises |
| Buffer.TryExactly | app/tag_read_repository.py:16-90 | A save under a fault, verdict by verdict: when it raises, stores and drops |
| Buffer.DrainExactly | app/buffer.py:25-31 | Every line before the count of a replay is saved without raising against the database that the lines before it left, and the line at the count, if any, raises |
| Buffer.EventBuffer.SaveLine | app/buffer.py:26-28 | One line of the loop: the line is read back and saved |
| Server.NoReadIsLost | app/main.py:25-50 | Over any run of reads, faults, starts and crashes, received and retried reads balance with stored, dropped, lost and buffered ones; the database is that of the stored reads; only reads with a GPS time are lost |
| Server.StorableAreKept | app/main.py:25-50 | Without GPS times, whatever the faults, starts and crashes, every received or retried read is stored, dropped or in the file |
| Server.ExactlyOnce | app/main.py:25-50 | With failures before commits only and no GPS times, every received read is in exactly one of table, dropped reads and file |
| Server.GpsReadIsLost | app/buffer.py:43-45 | A read with a GPS time is lost exactly when its first save raises before committing |
| Server.FileIsAQueue | app/buffer.py:14-36 | Over any run from any state, reads taken out, then the file, are the old file and the reads put in, in order, and the returned counts add up |
| Server.FaultFreeStart | app/buffer.py:19-36 | A start without faults takes out exactly the lines before the first that can never be saved, and the database is as if they had been saved one by one |
| Server.FileIsEmptied | app/buffer.py:32-35 | A start without faults empties the file exactly when it holds no line that can never be saved |
| Server.BlockedForever | app/buffer.py:25-33 | Whatever happens later, a line that can never be saved is not taken out, and it and everything behind it stay at the front of the file |
| Server.DeliveredExactly | app/main.py:43-50 | Some later run takes a line out of the file if and only if no line up to it can never be saved, and then the next start without faults does |
| Server.RefusedIsBuffered | app/main.py:25-30 | A read that can never be saved and has no GPS time goes into the file, whatever the fault |
| Server.RefusedBlocksTheFile | app/main.py:25-50 | No later run empties the file after that, or takes out more than was in it before |
| Server.ServerSessionsExactly | app/main.py:25-50 | Over any run with faults, replays and crashes whose saves come in order, the rows of a key are its sessions if and only if no stored read added a row of it when it already stood for several events |
| Server.Service.LogTagRead | app/main.py:25-30 | A save that raises puts the read into the file; the call raises only if that fails too |
| Server.Service.Start | app/main.py:43-50 | A start replays the file against the database and returns the number replayed |
| RateLimiter.LoginRateLimiter.IsAllowed | app/auth.py:23-28 | The pruned deque equals the in-window failures since the last success, and the answer is that of the full record |
| RateLimiter.RecordIsCounted | app/auth.py:23-36 | The record in the window has one time for each failure of the client inside the window that no success of it followed |
| RateLimiter.LoginRateLimiter.Prune | app/auth.py:26-27 | The pruning loop leaves exactly the in-window failures |
| RateLimiter.LoginRateLimiter.RecordFailure | app/auth.py:30-33 | Adds a failure to the record |
| RateLimiter.LoginRateLimiter.RecordSuccess | app/auth.py:35-36 | Clears the client's record |
| RateLimiter.Login | app/api.py:276-302 | Refused exactly when the record is full, and then nothing is recorded; else a wrong password adds exactly one failure at the time it is decided, and a right one exactly one success |
| RateLimiter.WindowIsBounded | app/api.py:279-290 | In any interleaving, failures in the window and logins in flight together stay within the bound |
| RateLimiter.FailuresAreBounded | app/api.py:279-290 | With at most k overlapping logins of a client, a success-free stretch shorter than the window has at most attempts - 1 + k failures |
| RateLimiter.BoundIsReached | app/api.py:279-290 | For any positive attempts, window and overlap there is a run whose failures reach that bound within one moment |
| RateLimiter.SequentialBound | app/api.py:279-290 | Logins that do not overlap: at most attempts failures |
| RateLimiter.Logins | app/api.py:276-302 | Logins one after another on a fresh limiter leave the record of their trace and are answered from the record before each |
| RateLimiter.WrongLoginsAreBounded | app/api.py:279-290 | Of such logins of a client, none successful, at most `attempts` are told of a wrong password within less than the window |
| EndToEnd.EachTurnDelivers | app/main.py:51-70 | In the interleaving model, a turn of a connection with n earlier turns delivers exactly its event n at the time of the turn, if it has one; none is skipped, repeated or reordered |
| EndToEnd.StreamsToTable | app/main.py:51-70 | For any LLRP and TCP connections to any receivers, reconnecting and interleaved in any way with receivers starting over, a clock that does not go back and no outage: the log is the accepted receipts in order, passages are those of the log, the rows of a key are its sessions just when none of its events starts late, and the counts add up just when none of any key does |
| EndToEnd.FittingStreamsToTable | app/main.py:51-70 | If the payloads of TCP clients fit their columns, whatever LLRP readers send, the rows of every key are its sessions and the counts add up |
| EndToEnd.LlrpReadsAreNeverLost | app/main.py:25-50 | Whatever bytes LLRP readers send and whatever faults and crashes the saves meet, every read handed on or tried again is stored, dropped or in the file |
| EndToEnd.BytesToTable | app/llrp.py:149-164 | For any bytes, the table made of the reads that one fresh receiver hands on holds the sessions of every key, the counts add up, and passages are those of the log |
| EndToEnd.DeliveredIsTheFeed | app/llrp.py:163-164 | Saving what a receiver hands on is the run of the pipeline with its aggregator |
| Failures.LateReplay | app/tag_read_repository.py:40-42 | A failed save replayed after a later read of its session leaves three counts for two events and the row's last time set back; passages then agree only if the times were equal |
| Failures.OtherReceiverBreaksLockStep | app/main.py:51-69 | In order, a tag read through one receiver and then another within the window: no duplicate for the second and a count of one, where the table merges into a row of count two |
| Failures.RestartBreaksLockStep | app/rfid.py:78-81 | The same when the one receiver starts over in between |
| Failures.EmptyEpcIsReceived | app/llrp.py:102-106 | A concrete frame of twenty bytes whose parsing gives one event with an empty EPC and no GPS time |
| Failures.EmptyEpcBlocksTheFile | app/main.py:25-50 | Whatever the state, the aggregator's history and the fault, the read of such an event goes into the file, and no later run empties the file or takes out more than was in it before |
| Failures.OverlongIsReceived | app/rfid.py:45-75 | A TCP payload with a direction of 65 characters is accepted |
| Failures.OverlongBlocksTheFile | app/models.py:53 | If its key is accepted, its read goes into the file under every fault and blocks it for good |
| Failures.RefusedEventStartsLate | app/rfid.py:83-98 | In order, a good read within the window after such a refused one adds a row of count two with the first time of the refused event, for one accepted event |
| Failures.GpsPayloadIsLost | app/buffer.py:38-49 | A payload with a GPS time is accepted, and its read is neither stored nor written to the file when its save raises before the commit |
| Failures.LateTimestampFailsTheFrame | app/llrp.py:111-112 | A concrete frame of a good and a late reading: its tag reports mean two events, parsing raises, and the loop ends having handed nothing on |
| Failures.BackwardClockBreaksLockStep | app/tag_read_repository.py:37-42 | In a run whose times step back, the entry is in step with a row that another has overtaken, and aggregator and table disagree on the next read |

## Left out

- Newest: the query leaves the order of equal times to the database; the model takes the oldest row. In-order runs have no ties (`Repository.NewestIsLast`).
- ReaderPassage: the serial numbers are a multiset, not a sorted list, and windows are any whole microseconds instead of whole seconds.
- The `epc_decoded` column and `decode_epc`: text made of the row's EPC by `Sscc.Sscc96WithCheckDigit`, in both branches of `save`, so rows do not hold it.
- TimestampField: keeps the integer microseconds; beyond the year 2242 the float division at app/llrp.py:112 may change the last of them. Where the conversion raises is modelled.
- Judge: saves also raise for text with surrogates that are not part of a pair, for NaN or infinity inside `extra_data`, for times outside the years 1 to 9999 in UTC, and for counts beyond 32 bits; the model has no such text, JSON or limits.
- Address: addresses have at most 45 characters, as the column of the reader's own address does. The peer address of a TCP client with a scoped IPv6 address could be longer; it would be refused only when a row is added, for a merge does not write it.
- NormalizeEpc: ASCII only; Unicode white space and case mapping are not modelled.
- ParseSimulatorEvent: starts from decoded JSON members; JSON, number and ISO date text are not modelled.
- BuildMessage: the ranges in which `struct.pack` raises are preconditions.
- Replay: a crash in the middle of the rewrite, which first truncates the file, is not modelled; the rewrite is one step.
- Lines of the file are records: line splitting and text encoding are not modelled (the JSON writer escapes every line separator).
- Sockets, asyncio, retry delays, the bytes of the TCP receiver's lines and Uvicorn: a stream is a sequence of bytes, a TCP client a list of decoded payloads, and each save one step.
- SQL and PostgreSQL: the tables are collections in memory; row ids, `created_at` and `updated_at` are left out, and readers and their schemes do not change during a run.
- Concurrent saves of one key out of time order: covered by the results for any order, not by the in-order ones.
- `sscc_tag_reads` and the paging of the history: filters and slices that would only add easy members.
- Passwords, tokens, the other endpoints, templates, discovery, settings and the simulator tool.
