# Rover live-status server and empty-`try` repair script, in Dafny

This project models two pieces of the rover software and proves properties
about them.

**The live-status server** is `mitra_replace/web_detect_status.py`. It is
modelled as one sequential state machine, a `Server` object with these fields:
`outputFrame`, `latestDetections`, `currentConfidence`, `listeners` (a list of
`Mailbox` objects, one per `/events` stream) and `statusData` (an ordered
dictionary). The model covers these operations:

- one pass of the camera loop: filter the detector rows, store the frame and
  the detections, publish a `DETECT` event;
- `notify_listeners`: fan a message out to every mailbox and drop the ones
  that refuse it;
- the `/events` stream: register, forward as `data: …\n\n` records, unregister;
- the merge done by `/update_status` and the `STATUS` event it publishes;
- the `ASSISTANT` event of `/chat`;
- the part `/video_feed` sends for the latest frame.

Some inputs come from code outside the model, and they are parameters:

- what the camera read returned;
- what the detector produced;
- the encoded JPEG bytes;
- the time texts, one per clock read (a `DETECT` payload reads the clock once per record);
- the `%.3f` confidence text;
- Python's printing of the status dictionary;
- the outcome of the assistant call.

Nothing is claimed about two steps being atomic. For `/video_feed` the model
states exactly the bytes of each part. For `/events` it states exactly the
characters of each record; the UTF-8 encoding applied to them afterwards is
not modelled.

**The repair script** is `mitra_fix/fix_web_detect.py`. Its scan loop is an
imperative method, `FixEmptyTry`, proved equal to a reference definition. That
definition is a *trace* of emitted lines: each emitted line is either a copy
of input line `n` or a `pass` inserted after the `try:` at line `n`. The
properties of the script are proved about this trace. They include the quirk
that blank lines after a non-final `try:` are emitted twice.

Modules:

| module | file | contents |
|---|---|---|
| `Wrappers` | wrappers.dfy | `Option` |
| `Seqs` | seqs.dfy | subsequences, filtering, `list.remove` |
| `Text` | text.dfy | `isspace`, `lstrip`, `startswith`, `join`/`split` |
| `FixWebDetect` | fix_web_detect.dfy | the repair script |
| `Wire` | wire.dfy | MJPEG parts, server-sent event records, event texts |
| `StatusDict` | status_dict.dfy | JSON values, the status dictionary and its merge |
| `WebDetectStatus` | web_detect_status.dfy | detections, mailboxes, the server |

## Model

| member | source | states |
|---|---|---|
| Text.LStrip | mitra_fix/fix_web_detect.py:20 | the result is a suffix of the line, everything removed is whitespace, and the result does not start with whitespace |
| Text.Indent | mitra_fix/fix_web_detect.py:23 | the indentation is all whitespace and, followed by the stripped line, gives the line back |
| Text.IsSpace | mitra_fix/fix_web_detect.py:20 | no printable ASCII character counts as whitespace |
| Text.LStripOf | mitra_fix/fix_web_detect.py:20 | `lstrip()` removes exactly the whitespace in front of the first non-whitespace character |
| Text.BlankIffStripsToEmpty | mitra_fix/fix_web_detect.py:26 | a line is blank exactly when stripping it leaves nothing |
| Text.StartsWithSlice | mitra_fix/fix_web_detect.py:22 | `startswith` holds exactly when the first characters are the prefix |
| Text.Join | mitra_fix/fix_web_detect.py:45 | joining no parts gives the empty text, one part gives itself, and the text starts with the first part |
| Text.SplitJoin | mitra_replace/web_detect_status.py:126 | splitting a newline-joined list of lines without newlines gives the list back |
| Text.JoinSplit | mitra_replace/web_detect_status.py:141 | joining the pieces of a split gives the text back |
| FixWebDetect.IsTry | mitra_fix/fix_web_detect.py:22 | a `try:` line is neither blank nor an `except`/`finally` line |
| FixWebDetect.IsHandler | mitra_fix/fix_web_detect.py:39 | an `except`/`finally` line is not blank |
| FixWebDetect.PassLine | mitra_fix/fix_web_detect.py:31 | the inserted line strips to `pass` and is indented four spaces deeper than its `try:` |
| FixWebDetect.NeedsPass | mitra_fix/fix_web_detect.py:25-41 | only a `try:` line can need a `pass`, and a `try:` on the last line always does |
| FixWebDetect.Step | mitra_fix/fix_web_detect.py:18-41 | one step starts with a copy of its line, and the step of a `try:` reaches at least up to the next non-blank line |
| FixWebDetect.TraceFrom | mitra_fix/fix_web_detect.py:17-43 | the trace from line `i` on is at least as long as the lines it covers: no line is lost |
| FixWebDetect.KindOfSound | mitra_fix/fix_web_detect.py:20-23 | the line kinds record exactly blankness, `try:`, `except`/`finally` and the indentation width the script tests |
| FixWebDetect.FixEmptyTry | mitra_fix/fix_web_detect.py:17-43 | the output is the rendered reference trace, and `changed` is true iff some line needs a `pass` |
| FixWebDetect.ScanLine | mitra_fix/fix_web_detect.py:18-41 | one pass of the loop body appends the line's step of the trace, sets `changed` iff that line needs a `pass`, and stops exactly at a `try:` followed only by blank lines |
| FixWebDetect.CopyBlankLines | mitra_fix/fix_web_detect.py:25-28 | the inner loop stops at the first non-blank line and appends exactly the blank lines it passed |
| FixWebDetect.TraceValid | mitra_fix/fix_web_detect.py:17-43 | every emitted line is a copy of an input line or a `pass` for one |
| FixWebDetect.NeedsPassIff | mitra_fix/fix_web_detect.py:25-41 | a `pass` is needed after line `i` iff it is a `try:` and either only blank lines follow it, or its next non-blank line is an `except`/`finally` indented no deeper |
| FixWebDetect.PassIffNeeded | mitra_fix/fix_web_detect.py:30-41 | a `pass` for line `i` is emitted iff line `i` needs one, and the trace holds a `pass` iff some line needs one |
| FixWebDetect.InsertedPassLine | mitra_fix/fix_web_detect.py:23-40 | each inserted line follows a `try:` that needs it, and is that line's indentation plus four spaces and `pass` |
| FixWebDetect.KeepsEveryLine | mitra_fix/fix_web_detect.py:17-43 | the input is a subsequence of the output, so the output is at least as long |
| FixWebDetect.NoTryUnchanged | mitra_fix/fix_web_detect.py:17-43 | without any `try:` line the output equals the input and no line needs a `pass` |
| FixWebDetect.EndingTry | mitra_fix/fix_web_detect.py:25-33 | a `try:` followed only by blank lines ends the output: the `try:`, its blank lines once, then its `pass` as the last line |
| FixWebDetect.BlankLinesTwice | mitra_fix/fix_web_detect.py:19-43 | the blank lines between a non-final `try:` and the next non-blank line appear twice, with the `pass` (if any) after the first copy |
| FixWebDetect.TryTrace | mitra_fix/fix_web_detect.py:25-43 | the trace through a non-final `try:` is its chunk, then the blank lines again, then the rest from the next non-blank line |
| Seqs.RemoveFirst | mitra_replace/web_detect_status.py:44-48 | `list.remove` drops one element when present, and the swallowed `ValueError` leaves the list as it was |
| Seqs.RemoveFirstDistinct | mitra_replace/web_detect_status.py:46 | on a list without duplicates, `remove(x)` is filtering `x` out |
| Seqs.RemoveNext | mitra_replace/web_detect_status.py:44-48 | removing the dead mailboxes one by one filters out one more of them at each step |
| Seqs.WithoutSubseq | mitra_replace/web_detect_status.py:44-48 | the mailboxes that survive keep their relative order |
| Wire.MjpegPart | mitra_replace/web_detect_status.py:165 | a part is the frame length plus a constant 39 bytes |
| Wire.PartRoundTrip | mitra_replace/web_detect_status.py:165 | the frame can be read back from its part |
| Wire.PartInjective | mitra_replace/web_detect_status.py:165 | different frames give different parts |
| Wire.PartsDelimited | mitra_replace/web_detect_status.py:165-167 | between two parts stand exactly `CRLF--frame`, the delimiter of section 5.1.1 of RFC 2046 |
| Wire.SseRecord | mitra_replace/web_detect_status.py:141 | a record is the message plus 8 bytes |
| Wire.SseRoundTrip | mitra_replace/web_detect_status.py:141 | the message can be read back from its record |
| Wire.SseRecordsRoundTrip | mitra_replace/web_detect_status.py:139-141 | each record of a run carries its own message, in order |
| Wire.SseSingleLine | mitra_replace/web_detect_status.py:141 | a message without line breaks is one `data:` line and the empty line that ends the event, as in section 9.2 of the WHATWG HTML Living Standard |
| Wire.SseMultiLine | mitra_replace/web_detect_status.py:141 | a message of several lines goes out as they are: only its first line carries `data: ` |
| Wire.StatusEvent | mitra_replace/web_detect_status.py:191 | splitting a `STATUS` event on `\|` gives the tag, the time and the fields of the printed status, when the time holds no `\|` |
| Wire.AssistantEvent | mitra_replace/web_detect_status.py:180 | splitting an `ASSISTANT` event on `\|` gives the tag, the time and the fields of the reply, when the time holds no `\|` |
| Wire.DetectRecord | mitra_replace/web_detect_status.py:126 | the length of a `DETECT` record is its fields plus 9 bytes |
| Wire.DetectRecordFields | mitra_replace/web_detect_status.py:126 | splitting a `DETECT` record on `\|` gives back its four fields when none holds a `\|` |
| StatusDict.Put | mitra_replace/web_detect_status.py:189 | assigning a present key keeps the size, a new key adds one entry |
| StatusDict.Merge | mitra_replace/web_detect_status.py:189 | the merge never loses an entry and adds at most one per body member |
| StatusDict.PutGet | mitra_replace/web_detect_status.py:189 | after `d[k] = v`, `k` maps to `v` and every other key keeps its value |
| StatusDict.PutKeys | mitra_replace/web_detect_status.py:189 | a present key keeps its place and a new key goes last |
| StatusDict.PutUnique | mitra_replace/web_detect_status.py:189 | assigning keeps the keys distinct |
| StatusDict.Latest | mitra_replace/web_detect_status.py:187 | a repeated member name keeps its last value, and there is a value exactly for a name that occurs |
| StatusDict.MergeGet | mitra_replace/web_detect_status.py:188-189 | after the merge each body key maps to the body's value and every other key keeps its old value |
| StatusDict.LatestUnique | mitra_replace/web_detect_status.py:187-189 | without repeated names, the value that wins is the member's own |
| StatusDict.MergeKeys | mitra_replace/web_detect_status.py:189 | the old keys keep their places at the front, the keys are the old ones plus the body's, and they stay distinct |
| WebDetectStatus.Detections | mitra_replace/web_detect_status.py:107-116 | at most one detection per row, each labelled with a name from `CLASSES` and with a confidence not below the threshold |
| WebDetectStatus.Kept | mitra_replace/web_detect_status.py:107-116 | the filter never keeps more rows than the detector gave |
| WebDetectStatus.FilterRows | mitra_replace/web_detect_status.py:107-116 | the filtering loop builds exactly the detection list of the reference definition |
| WebDetectStatus.DetectionsAreKeptRows | mitra_replace/web_detect_status.py:107-116 | the detections are the kept rows one for one, in order, each labelled `CLASSES[idx]` |
| WebDetectStatus.KeptRows | mitra_replace/web_detect_status.py:107-116 | a row is kept iff its confidence is not below the threshold and its class index is in range; each passing row is kept as often as the detector gave it and no other row is kept; kept rows keep detector order |
| WebDetectStatus.NothingConfident | mitra_replace/web_detect_status.py:109-110 | with every confidence below the threshold, the cycle detects nothing |
| WebDetectStatus.DetectPayload | mitra_replace/web_detect_status.py:126 | the payload is empty exactly when there are no detections |
| WebDetectStatus.DetectRecords | mitra_replace/web_detect_status.py:126 | one record per detection; record `k` carries the time text of the `k`-th clock read |
| WebDetectStatus.DetectPayloadLines | mitra_replace/web_detect_status.py:125-127 | splitting a `DETECT` payload on line breaks gives one record per detection, in list order, each with its own time text |
| WebDetectStatus.ClassNamesPlain | mitra_replace/web_detect_status.py:26-27 | no class name holds a line break or a `\|` |
| WebDetectStatus.Mailbox.constructor | mitra_replace/web_detect_status.py:136 | a new queue is empty |
| WebDetectStatus.Mailbox.PutNowait | mitra_replace/web_detect_status.py:41-43 | the put fails exactly when the queue is full, and otherwise adds the message at the end |
| WebDetectStatus.Mailbox.GetNowait | mitra_replace/web_detect_status.py:140 | a get takes the oldest message |
| WebDetectStatus.Accepted | mitra_replace/web_detect_status.py:38-43 | a mailbox takes at most the messages offered to it, and an unbounded one takes them all |
| WebDetectStatus.AcceptedStep | mitra_replace/web_detect_status.py:38-43 | one more message offered: a mailbox stays registered iff it stayed so far and was not full, and then takes the message; otherwise what it took does not change |
| WebDetectStatus.ReceivedStep | mitra_replace/web_detect_status.py:37-48 | one more published message, as one mailbox sees it: it stays registered iff it takes the message, and it holds what it held at the start plus the prefix of the messages it accepted |
| WebDetectStatus.Offer | mitra_replace/web_detect_status.py:38-43 | each mailbox with room gets the message at the end, and exactly the full ones are collected as dead |
| WebDetectStatus.Forward | mitra_replace/web_detect_status.py:139-141 | the stream sends one `data:` record per queued message, in queue order, and empties the queue |
| WebDetectStatus.Server.constructor | mitra_replace/web_detect_status.py:29-35 | no frame, no detections, the default confidence, no listeners, and `lat`, `lon`, `temp` set to `None` |
| WebDetectStatus.Server.Notify | mitra_replace/web_detect_status.py:37-48 | every mailbox with room gets the message at the end and stays; every full one is untouched and dropped; survivors keep their order; the rest of the state is unchanged |
| WebDetectStatus.Server.DropAll | mitra_replace/web_detect_status.py:44-48 | the registered list loses exactly the dead mailboxes |
| WebDetectStatus.Server.Subscribe | mitra_replace/web_detect_status.py:136-137 | a fresh, empty, unbounded mailbox is registered last, so it holds no earlier message |
| WebDetectStatus.Server.Unsubscribe | mitra_replace/web_detect_status.py:144-148 | the stream's mailbox is no longer registered, the others keep their order, and a mailbox already dropped is no error |
| WebDetectStatus.Server.Deliver | mitra_replace/web_detect_status.py:37-141 | a message is published and the stream forwards its whole backlog, then the message, one record each in FIFO order, ending empty; every other mailbox takes the message and stays iff it was not full; no other field changes |
| WebDetectStatus.Server.DeliverNext | mitra_replace/web_detect_status.py:139-141 | one turn of the stream's loop keeps the stream registered and empty, sends the message's record, and extends what every earlier mailbox received by that message |
| WebDetectStatus.Server.Listen | mitra_replace/web_detect_status.py:139-141 | the stream's loop sends exactly the records of the published messages in order, while every mailbox registered before it holds what it held plus the messages it accepted |
| WebDetectStatus.Server.Disconnect | mitra_replace/web_detect_status.py:144-148 | the stream's mailbox is unregistered; the other mailboxes and their contents are left as they were |
| WebDetectStatus.Server.EventsStream | mitra_replace/web_detect_status.py:135-148 | a stream sends exactly the records of the messages published while it is connected, in order, and is unregistered at the end; every mailbox registered before it stays iff it never was full when offered a message and holds its old contents plus the prefix of the messages it accepted, in the same order; no other field changes |
| WebDetectStatus.Server.CameraCycle | mitra_replace/web_detect_status.py:95-131 | a failed read or a raising detector changes nothing; without a model the detections become empty; the frame is stored when it encodes; a `DETECT` payload is published iff the stored list is non-empty and the frame encoded |
| WebDetectStatus.Server.UpdateStatus | mitra_replace/web_detect_status.py:184-192 | an object body is merged into the status, any other JSON leaves it alone, a `STATUS` event is published in both cases, and a body that does not parse changes nothing |
| WebDetectStatus.ReplyText | mitra_replace/web_detect_status.py:176-178 | a reply member is returned as it is; a reply without one gives a non-empty fallback text (`(no reply)`); a raised error gives a text that ends with the error's text (`(assistant error) ` followed by it) |
| WebDetectStatus.Server.Chat | mitra_replace/web_detect_status.py:169-182 | for an object body, the assistant's reply (or its fallback text) is published as an `ASSISTANT` event and returned |
| WebDetectStatus.Server.NextPart | mitra_replace/web_detect_status.py:157-165 | nothing is sent while no frame is stored; otherwise the part holds exactly the latest frame |

## Left out

- Threads and locks are not modelled: the daemon camera thread, `frame_lock`, Flask's request threads and the blocking `q.get()`. The operations run one at a time. `latest_detections` is stored before the frame, outside the lock, and the model says nothing about the two being consistent for a reader.
- The `while True` of the camera loop and of `/video_feed` is not modelled. One pass of each is: `CameraCycle`, `NextPart`.
- WebDetectStatus.Server.EventsStream: models the `/events` loop under one schedule, in which the stream forwards each message before the next one is published. A stream that falls behind is covered one message at a time by `Deliver`, which forwards a backlog in FIFO order. Client disconnects happen only after the last message.
- WebDetectStatus.Server.Deliver: the stream's own mailbox is unbounded (`maxsize` 0), as every mailbox `/events` creates is; bounded mailboxes appear only as the other listeners.
- The camera and the detector are parameters of the model: `open_camera`, `load_model`, `blobFromImage`/`forward`, the drawing calls and `imencode`. A detector row arrives with its class index already truncated and its box already scaled.
- Floating point is not modelled. Confidences are reals compared with the threshold. A NaN confidence, which Python's `conf < current_confidence` would let through, cannot occur.
- The `%.3f` and `%.0f` formatting is a parameter of the model.
- `time.strftime` and the `time.sleep` pacing are not modelled. The time texts are parameters: one per `STATUS` or `ASSISTANT` event, and one per record of a `DETECT` payload (`times(k)` for the `k`-th record).
- Flask routing, `jsonify`, the JSON parser and Python's printing of a dictionary are not modelled. A request body arrives parsed, or as `None` when it does not parse. The printed status is a parameter.
- `/latest_detections` is not modelled. It only serialises `latest_detections`.
- `/` is not modelled. It returns a fixed page.
- The assistant request of `/chat` is not modelled. Its outcome is a parameter, and the query and payload it sends are not modelled.
- `WebDetectStatus.Mailbox.GetNowait`: does not model that `q.get()` waits on an empty queue. An empty queue gives `None`, and `Forward` stops there.
- JSON numbers are reals. Python's distinction between `int` and `float` is not modelled.
- The file handling of the repair script is not modelled: the backup, the read, `splitlines()` and the final write. The scan takes the list of lines. `"\n".join` is `Text.Join`.
- `mitra_web/web_platform.py` is not part of this model. It is a reverse proxy of HTTP requests.
- Unicode is modelled only as far as the scripts use it. `isspace` covers the characters Python's `str.isspace` accepts. There is no normalisation.
