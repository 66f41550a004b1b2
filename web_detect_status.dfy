/** The live-status server of the rover: a producer (one cycle of the
    camera loop) stores the latest JPEG frame and the filtered detections
    and publishes `DETECT` events; every publication is fanned out to the
    mailboxes of the connected `/events` streams, and a mailbox that refuses
    a message is dropped; `/update_status` merges a JSON object into the
    status dictionary and publishes a `STATUS` event; `/video_feed` frames
    the latest JPEG as an MJPEG part.

    Everything runs one step at a time here: the camera thread, the lock
    around the frame and the blocking reads of the streams are outside the
    model, and nothing is claimed about two steps being atomic. */
module WebDetectStatus {
  import opened Text
  import opened Seqs
  import opened Wire
  import opened Wrappers
  import opened StatusDict

  /** The labels of the MobileNet SSD detector, by class index. */
  const CLASSES: seq<string> := ["background", "aeroplane", "bicycle", "bird", "boat", "bottle", "bus",
    "car", "cat", "chair", "cow", "diningtable", "dog", "horse", "motorbike", "person", "pottedplant",
    "sheep", "sofa", "train", "tvmonitor"]

  const CONFIDENCE_DEFAULT: real := 0.5

  /** One row of the detector's output: its confidence, its class index
      (already truncated to an integer) and its box, already scaled to the
      frame and truncated (the NumPy arithmetic is outside the model). */
  datatype Row = Row(conf: real, classIndex: int, box: seq<int>)

  /** One entry of `latest_detections`. */
  datatype Detection = Detection(cls: string, conf: real, bbox: seq<int>)

  /** The rows the camera loop keeps: confident enough, with a known class. */
  predicate Keep(r: Row, threshold: real)
  {
    !(r.conf < threshold) && 0 <= r.classIndex < |CLASSES|
  }

  function Label(r: Row): Detection
    requires 0 <= r.classIndex < |CLASSES|
  {
    Detection(CLASSES[r.classIndex], r.conf, r.box)
  }

  /** The kept rows, in detector order. */
  function Kept(rows: seq<Row>, threshold: real): (kept: seq<Row>)
    ensures |kept| <= |rows|
    decreases |rows|
  {
    if rows == [] then []
    else Kept(rows[..|rows| - 1], threshold) + (if Keep(rows[|rows| - 1], threshold) then [rows[|rows| - 1]] else [])
  }

  /** The detection list one camera cycle builds from the detector's rows. */
  function Detections(rows: seq<Row>, threshold: real): (dets: seq<Detection>)
    ensures |dets| <= |rows|
    ensures forall k :: 0 <= k < |dets| ==> dets[k].cls in CLASSES && !(dets[k].conf < threshold)
    decreases |rows|
  {
    if rows == [] then []
    else
      var last := rows[|rows| - 1];
      Detections(rows[..|rows| - 1], threshold) + (if Keep(last, threshold) then [Label(last)] else [])
  }

  /** The filtering loop of the camera cycle. */
  method FilterRows(rows: seq<Row>, threshold: real) returns (dets: seq<Detection>)
    ensures dets == Detections(rows, threshold)
  {
    dets := [];
    var i := 0;
    while i < |rows|
      invariant 0 <= i <= |rows|
      invariant dets == Detections(rows[..i], threshold)
    {
      assert rows[..i + 1][..i] == rows[..i];
      var r := rows[i];
      if !(r.conf < threshold) && 0 <= r.classIndex < |CLASSES| {
        dets := dets + [Detection(CLASSES[r.classIndex], r.conf, r.box)];
      }
      i := i + 1;
    }
    assert rows[..|rows|] == rows;
  }

  /** Property: the detections are the kept rows, one for one and in the
      same order, each labelled with the name of its class. */
  lemma {:induction false} DetectionsAreKeptRows(rows: seq<Row>, threshold: real)
    ensures |Detections(rows, threshold)| == |Kept(rows, threshold)|
    ensures forall k :: 0 <= k < |Kept(rows, threshold)| ==>
              Keep(Kept(rows, threshold)[k], threshold) && Detections(rows, threshold)[k] == Label(Kept(rows, threshold)[k])
    decreases |rows|
  {
    if rows != [] {
      DetectionsAreKeptRows(rows[..|rows| - 1], threshold);
    }
  }

  /** Property: a row is kept exactly when it passes the confidence and
      class-index checks, as many times as the detector gave it, and the
      kept rows keep the detector's order. */
  lemma KeptRows(rows: seq<Row>, threshold: real)
    ensures forall k :: 0 <= k < |rows| && Keep(rows[k], threshold) ==> rows[k] in Kept(rows, threshold)
    ensures forall r :: r in Kept(rows, threshold) ==> r in rows && Keep(r, threshold)
    ensures forall r :: multiset(Kept(rows, threshold))[r] == if Keep(r, threshold) then multiset(rows)[r] else 0
    ensures Subseq(Kept(rows, threshold), rows)
  {
    KeptMembers(rows, threshold);
    KeptCount(rows, threshold);
  }

  /** Kept rows are rows that pass, every passing row is kept, and the
      detector's order is kept. */
  lemma {:induction false} KeptMembers(rows: seq<Row>, threshold: real)
    ensures forall k :: 0 <= k < |rows| && Keep(rows[k], threshold) ==> rows[k] in Kept(rows, threshold)
    ensures forall r :: r in Kept(rows, threshold) ==> r in rows && Keep(r, threshold)
    ensures Subseq(Kept(rows, threshold), rows)
    decreases |rows|
  {
    if rows != [] {
      var init, last := rows[..|rows| - 1], rows[|rows| - 1];
      KeptMembers(init, threshold);
      assert rows == init + [last];
      assert forall k :: 0 <= k < |init| ==> rows[k] == init[k];
      if Keep(last, threshold) {
        SubseqCons2(Kept(init, threshold), init, last);
      } else {
        SubseqAppend(Kept(init, threshold), init, [last]);
        assert Kept(rows, threshold) == Kept(init, threshold) + [];
        assert Kept(init, threshold) + [] == Kept(init, threshold);
        assert Subseq(Kept(init, threshold), rows);
      }
    } else {
      var none: seq<Row> := [];
      assert Kept(rows, threshold) == none;
      assert Subseq(none, rows);
    }
  }

  /** Each row is kept as many times as it occurs, or not at all. */
  lemma {:induction false} KeptCount(rows: seq<Row>, threshold: real)
    ensures forall r :: multiset(Kept(rows, threshold))[r] == if Keep(r, threshold) then multiset(rows)[r] else 0
    decreases |rows|
  {
    if rows != [] {
      var init, last := rows[..|rows| - 1], rows[|rows| - 1];
      KeptCount(init, threshold);
      assert rows == init + [last];
      assert multiset(rows) == multiset(init) + multiset{last};
    }
  }

  /** Property: with no row confident enough, the cycle detects nothing. */
  lemma NothingConfident(rows: seq<Row>, threshold: real)
    requires forall k :: 0 <= k < |rows| ==> rows[k].conf < threshold
    ensures Detections(rows, threshold) == []
  {
    DetectionsAreKeptRows(rows, threshold);
    KeptRows(rows, threshold);
    assert forall r :: r in rows ==> !Keep(r, threshold);
    assert |Kept(rows, threshold)| == 0 by {
      assert forall r :: r !in Kept(rows, threshold);
    }
  }

  /** The records of a `DETECT` event, one per detection. The clock is read
      once per record: `times(k)` is the time text of the `k`-th read, so two
      records of one event can carry different times. */
  function DetectRecords(times: nat -> string, dets: seq<Detection>, confText: real -> string): (recs: seq<string>)
    ensures |recs| == |dets|
  {
    seq(|dets|, k requires 0 <= k < |dets| => DetectRecord(times(k), dets[k].cls, confText(dets[k].conf)))
  }

  /** The `DETECT` event of one camera cycle: its records, one per line;
      it is empty exactly when nothing was detected. */
  function DetectPayload(times: nat -> string, dets: seq<Detection>, confText: real -> string): (payload: string)
    ensures payload == "" <==> dets == []
  {
    var recs := DetectRecords(times, dets, confText);
    assert recs != [] ==> recs[0] == DetectRecord(times(0), dets[0].cls, confText(dets[0].conf));
    Join(recs, '\n')
  }

  /** Property: splitting a `DETECT` payload on line breaks gives one record
      per detection, in list order (the time and the confidence texts hold
      no line break; class names never do). */
  lemma DetectPayloadLines(times: nat -> string, dets: seq<Detection>, confText: real -> string)
    requires |dets| >= 1
    requires forall k :: 0 <= k < |dets| ==> '\n' !in times(k) && '\n' !in dets[k].cls && '\n' !in confText(dets[k].conf)
    ensures Split(DetectPayload(times, dets, confText), '\n') == DetectRecords(times, dets, confText)
  {
    var recs := DetectRecords(times, dets, confText);
    forall k | 0 <= k < |recs|
      ensures '\n' !in recs[k]
    {
      assert recs[k] == "DETECT|" + times(k) + "|" + dets[k].cls + "|" + confText(dets[k].conf);
    }
    SplitJoin(recs, '\n');
  }

  /** Class names hold no line break and no `|`. */
  lemma ClassNamesPlain()
    ensures forall k :: 0 <= k < |CLASSES| ==> '\n' !in CLASSES[k] && '|' !in CLASSES[k]
  {
  }

  // ---------------------------------------------------------------------
  // Mailboxes (`queue.Queue`)

  /** The queue of one `/events` stream. `maxsize` 0 means unbounded, as in
      Python; a bounded queue refuses a message once it holds `maxsize`. */
  class Mailbox {
    var items: seq<string>
    const maxsize: int

    constructor (maxsize: int)
      ensures this.maxsize == maxsize && items == []
    {
      this.maxsize := maxsize;
      items := [];
    }

    /** `q.full()`. */
    predicate Full()
      reads this
    {
      0 < maxsize <= |items|
    }

    /** `q.put_nowait(m)`; `ok` is false where Python raises `queue.Full`. */
    method PutNowait(m: string) returns (ok: bool)
      modifies this
      ensures ok <==> !old(Full())
      ensures items == if ok then old(items) + [m] else old(items)
    {
      ok := !Full();
      if ok {
        items := items + [m];
      }
    }

    /** `q.get()` on a queue that holds something; on an empty queue the
        stream would wait, which is `None` here. */
    method GetNowait() returns (m: Option<string>)
      modifies this
      ensures old(items) == [] ==> m == None && items == []
      ensures old(items) != [] ==> m == Some(old(items)[0]) && items == old(items)[1..]
    {
      if items == [] {
        m := None;
      } else {
        m := Some(items[0]);
        items := items[1..];
      }
    }
  }

  /** What one `notify_listeners(msg)` does to the registered mailboxes
      `before`, leaving `after` registered: every mailbox that had room gets
      `msg` at the end and stays; every full one is left as it was and is
      dropped; the ones that stay keep their order. */
  twostate predicate FannedOut(before: seq<Mailbox>, new after: seq<Mailbox>, msg: string)
    reads before
  {
    && Subseq(after, before)
    && (forall k :: 0 <= k < |before| ==> (before[k] in after <==> !old(before[k].Full())))
    && (forall k :: 0 <= k < |before| ==>
          before[k].items == if old(before[k].Full()) then old(before[k].items) else old(before[k].items) + [msg])
  }

  /** Nothing was published: same mailboxes, same contents. */
  twostate predicate Untouched(before: seq<Mailbox>, new after: seq<Mailbox>)
    reads before
  {
    after == before && forall k :: 0 <= k < |before| ==> before[k].items == old(before[k].items)
  }

  /** How many of `n` messages offered one after the other a mailbox that
      holds `held` messages takes before it first refuses one (after which it
      is dropped and offered nothing more). */
  function Accepted(maxsize: int, held: nat, n: nat): (a: nat)
    ensures a <= n
    ensures maxsize <= 0 ==> a == n
  {
    if maxsize <= 0 || held + n <= maxsize then n
    else if held >= maxsize then 0
    else maxsize - held
  }

  /** Whether that mailbox takes every one of the `n` messages and so stays
      registered. */
  predicate Stays(maxsize: int, held: nat, n: nat)
  {
    maxsize <= 0 || n == 0 || held + n <= maxsize
  }

  /** Property: offering one more message to a mailbox that is still
      registered is one `put_nowait`: it stays exactly when it is not full,
      and takes the message exactly then; a dropped mailbox takes nothing. */
  lemma AcceptedStep(maxsize: int, held: nat, n: nat)
    ensures Stays(maxsize, held, n) ==> Accepted(maxsize, held, n) == n
    ensures Stays(maxsize, held, n + 1) <==> Stays(maxsize, held, n) && !(0 < maxsize <= held + n)
    ensures Accepted(maxsize, held, n + 1) ==
              if Stays(maxsize, held, n + 1) then n + 1 else Accepted(maxsize, held, n)
  {
  }

  /** Property: one more published message, as one mailbox sees it. If it
      was still registered, it takes the message and stays registered
      exactly when it was not full; if it was dropped before, nothing
      changes. Either way it holds what it held at the start and the
      prefix of the messages it accepted. */
  lemma ReceivedStep(maxsize: int, held: seq<string>, ms: seq<string>, m: string,
                     items: seq<string>, wasIn: bool, items': seq<string>, isIn: bool)
    requires wasIn <==> Stays(maxsize, |held|, |ms|)
    requires items == held + ms[..Accepted(maxsize, |held|, |ms|)]
    requires wasIn ==> (isIn <==> !(0 < maxsize <= |items|)) && items' == if isIn then items + [m] else items
    requires !wasIn ==> !isIn && items' == items
    ensures isIn <==> Stays(maxsize, |held|, |ms| + 1)
    ensures items' == held + (ms + [m])[..Accepted(maxsize, |held|, |ms| + 1)]
  {
    AcceptedStep(maxsize, |held|, |ms|);
    assert (ms + [m])[..|ms|] == ms;
  }

  /** The messages each mailbox holds. */
  function Contents(ls: seq<Mailbox>): (c: seq<seq<string>>)
    reads ls
    ensures |c| == |ls| && forall k :: 0 <= k < |ls| ==> c[k] == ls[k].items
  {
    seq(|ls|, k requires 0 <= k < |ls| reads ls => ls[k].items)
  }

  /** What the mailboxes `before`, which held `held`, hold after the
      messages `ms` were published one after the other, leaving `after`
      registered: each took the messages up to the first it refused, and
      stays registered only if it refused none. */
  predicate Received(before: seq<Mailbox>, held: seq<seq<string>>, after: seq<Mailbox>, ms: seq<string>)
    reads before
  {
    && |held| == |before|
    && forall k :: 0 <= k < |before| ==>
         && (before[k] in after <==> Stays(before[k].maxsize, |held[k]|, |ms|))
         && before[k].items == held[k] + ms[..Accepted(before[k].maxsize, |held[k]|, |ms|)]
  }

  /** The first loop of `notify_listeners`: `put_nowait` into each mailbox
      in turn, collecting the ones that raised. */
  method Offer(ls: seq<Mailbox>, msg: string) returns (dead: seq<Mailbox>)
    requires Distinct(ls)
    modifies ls
    ensures forall k :: 0 <= k < |ls| ==> (ls[k] in dead <==> old(ls[k].Full()))
    ensures forall k :: 0 <= k < |ls| ==>
              ls[k].items == if old(ls[k].Full()) then old(ls[k].items) else old(ls[k].items) + [msg]
  {
    dead := [];
    var i := 0;
    while i < |ls|
      invariant 0 <= i <= |ls|
      invariant forall k :: 0 <= k < i ==> (ls[k] in dead <==> old(ls[k].Full()))
      invariant forall k :: i <= k < |ls| ==> ls[k] !in dead
      invariant forall k :: 0 <= k < i ==>
                  ls[k].items == if old(ls[k].Full()) then old(ls[k].items) else old(ls[k].items) + [msg]
      invariant forall k :: i <= k < |ls| ==> ls[k].items == old(ls[k].items)
    {
      var ok := ls[i].PutNowait(msg);
      if !ok {
        dead := dead + [ls[i]];
      }
      i := i + 1;
    }
  }

  /** The `/events` stream forwarding what its queue holds: one record per
      message, in queue order. */
  method Forward(q: Mailbox) returns (chunks: seq<string>)
    modifies q
    ensures q.items == []
    ensures chunks == SseRecords(old(q.items))
  {
    chunks := [];
    ghost var taken: seq<string> := [];
    while q.items != []
      invariant taken + q.items == old(q.items)
      invariant chunks == SseRecords(taken)
      decreases |q.items|
    {
      var m := q.GetNowait();
      SseRecordsSnoc(taken, m.value);
      assert taken + [m.value] + q.items == taken + ([m.value] + q.items);
      taken := taken + [m.value];
      chunks := chunks + [SseRecord(m.value)];
    }
  }

  // ---------------------------------------------------------------------
  // The server

  /** The outcome of running the detector on one frame. */
  datatype Inference =
    | NoModel            // the model files were missing: detection disabled
    | Failed             // the detector or the drawing raised: the cycle is abandoned
    | Rows(rows: seq<Row>)

  /** What the assistant call of `/chat` came back with. */
  datatype Answer =
    | Replied(text: string)  // a JSON reply with a `reply` member
    | NoReplyField           // a JSON reply without one
    | Error(error: string)   // the request or the decoding raised

  /** The state the server's threads share. */
  class Server {
    var outputFrame: Option<seq<byte>>
    var latestDetections: seq<Detection>
    var currentConfidence: real
    var listeners: seq<Mailbox>
    var statusData: Dict

    /** Each stream is registered once, and the status is a dictionary. */
    ghost predicate Valid()
      reads this
    {
      Distinct(listeners) && UniqueKeys(statusData)
    }

    constructor ()
      ensures Valid()
      ensures outputFrame == None && latestDetections == [] && currentConfidence == CONFIDENCE_DEFAULT
      ensures listeners == [] && statusData == [("lat", JNull), ("lon", JNull), ("temp", JNull)]
    {
      outputFrame := None;
      latestDetections := [];
      currentConfidence := CONFIDENCE_DEFAULT;
      listeners := [];
      statusData := [("lat", JNull), ("lon", JNull), ("temp", JNull)];
      new;
      assert Keys(statusData) == ["lat", "lon", "temp"];
    }

    /** `notify_listeners(msg)`: offer `msg` to every registered mailbox,
        then unregister the ones that refused it. */
    method Notify(msg: string)
      requires Valid()
      modifies this, listeners
      ensures Valid()
      ensures outputFrame == old(outputFrame) && latestDetections == old(latestDetections)
      ensures currentConfidence == old(currentConfidence) && statusData == old(statusData)
      ensures FannedOut(old(listeners), listeners, msg)
    {
      ghost var ls := listeners;
      var dead := Offer(listeners, msg);
      DropAll(dead);
      WithoutSubseq(ls, Elems(dead));
      WithoutDistinct(ls, Elems(dead));
      forall k | 0 <= k < |ls|
        ensures ls[k] in listeners <==> !old(ls[k].Full())
      {
        WithoutMember(ls, Elems(dead), ls[k]);
      }
    }

    /** The second loop of `notify_listeners`: `listeners.remove(q)` for
        each mailbox that refused the message. */
    method DropAll(dead: seq<Mailbox>)
      requires Valid()
      modifies this
      ensures listeners == Without(old(listeners), Elems(dead))
      ensures outputFrame == old(outputFrame) && latestDetections == old(latestDetections)
      ensures currentConfidence == old(currentConfidence) && statusData == old(statusData)
    {
      ghost var ls := listeners;
      assert Elems(dead[..0]) == {};
      WithoutEmpty(ls);
      var j := 0;
      while j < |dead|
        invariant 0 <= j <= |dead|
        invariant listeners == Without(ls, Elems(dead[..j]))
        invariant outputFrame == old(outputFrame) && latestDetections == old(latestDetections)
        invariant currentConfidence == old(currentConfidence) && statusData == old(statusData)
      {
        RemoveNext(ls, dead, j);
        listeners := RemoveFirst(listeners, dead[j]);
        j := j + 1;
      }
      assert dead[..|dead|] == dead;
    }

    /** A stream connects: a new unbounded queue is registered last. */
    method Subscribe() returns (q: Mailbox)
      requires Valid()
      modifies this
      ensures Valid()
      ensures fresh(q) && q.items == [] && q.maxsize == 0
      ensures listeners == old(listeners) + [q]
      ensures outputFrame == old(outputFrame) && latestDetections == old(latestDetections)
      ensures currentConfidence == old(currentConfidence) && statusData == old(statusData)
    {
      q := new Mailbox(0);
      listeners := listeners + [q];
    }

    /** A stream ends: `listeners.remove(q)`, whose `ValueError` for a queue
        already dropped is swallowed. */
    method Unsubscribe(q: Mailbox)
      requires Valid()
      modifies this
      ensures Valid()
      ensures listeners == Without(old(listeners), {q}) && q !in listeners
      ensures outputFrame == old(outputFrame) && latestDetections == old(latestDetections)
      ensures currentConfidence == old(currentConfidence) && statusData == old(statusData)
    {
      RemoveFirstDistinct(listeners, q);
      WithoutDistinct(listeners, {q});
      listeners := RemoveFirst(listeners, q);
    }

    /** One `/events` stream from connect to disconnect, while the messages
        `published` go out one after the other and the stream forwards each
        before the next is published. */
    method EventsStream(published: seq<string>) returns (q: Mailbox, chunks: seq<string>)
      requires Valid()
      modifies this, listeners
      ensures Valid()
      ensures fresh(q) && q !in listeners
      ensures chunks == SseRecords(published)
      ensures outputFrame == old(outputFrame) && latestDetections == old(latestDetections)
      ensures currentConfidence == old(currentConfidence) && statusData == old(statusData)
      ensures Subseq(listeners, old(listeners))
      ensures Received(old(listeners), old(Contents(listeners)), listeners, published)
    {
      ghost var L0, held := listeners, Contents(listeners);
      q := Subscribe();
      SubseqRefl(listeners);
      assert forall k :: 0 <= k < |L0| ==> listeners[k] == L0[k];
      assert published[..0] == [];
      chunks := Listen(published, q, L0, held);
      Disconnect(q, L0, held, published);
    }

    /** The stream of `q` while it is connected: each message of `published`
        goes out in turn and the stream forwards it before the next. */
    method Listen(published: seq<string>, q: Mailbox, ghost L0: seq<Mailbox>, ghost held: seq<seq<string>>)
      returns (chunks: seq<string>)
      requires Valid() && q in listeners && q.items == [] && q.maxsize == 0 && q !in L0
      requires Subseq(listeners, L0 + [q]) && Received(L0, held, listeners, published[..0])
      modifies this, L0, q
      ensures Valid() && q in listeners && q.items == []
      ensures chunks == SseRecords(published)
      ensures Subseq(listeners, L0 + [q]) && Received(L0, held, listeners, published)
      ensures outputFrame == old(outputFrame) && latestDetections == old(latestDetections)
      ensures currentConfidence == old(currentConfidence) && statusData == old(statusData)
    {
      chunks := [];
      var i := 0;
      while i < |published|
        invariant 0 <= i <= |published|
        invariant Valid()
        invariant q in listeners && q.items == [] && q.maxsize == 0
        invariant Subseq(listeners, L0 + [q])
        invariant Received(L0, held, listeners, published[..i])
        invariant chunks == SseRecords(published[..i])
        invariant outputFrame == old(outputFrame) && latestDetections == old(latestDetections)
        invariant currentConfidence == old(currentConfidence) && statusData == old(statusData)
      {
        SubseqMembers(listeners, L0 + [q]);
        var c := DeliverNext(published[..i], published[i], q, L0, held);
        TakeOneMore(published, i);
        SseRecordsPrefix(published, i);
        chunks := chunks + c;
        i := i + 1;
      }
      assert published[..|published|] == published;
    }

    /** One round of `EventsStream`: the next message is published and the
        stream forwards it; the mailboxes registered before the stream
        connected have received their share of the messages so far. */
    method DeliverNext(ms: seq<string>, m: string, q: Mailbox, ghost L0: seq<Mailbox>, ghost held: seq<seq<string>>)
      returns (c: seq<string>)
      requires Valid() && q in listeners && q.items == [] && q.maxsize == 0 && q !in L0
      requires Subseq(listeners, L0 + [q]) && Received(L0, held, listeners, ms)
      modifies this, listeners
      ensures Valid() && q in listeners && q.items == []
      ensures c == SseRecords([m])
      ensures Subseq(listeners, L0 + [q]) && Received(L0, held, listeners, ms + [m])
      ensures outputFrame == old(outputFrame) && latestDetections == old(latestDetections)
      ensures currentConfidence == old(currentConfidence) && statusData == old(statusData)
    {
      ghost var ls := listeners;
      c := Deliver(m, q);
      SubseqTrans(listeners, ls, L0 + [q]);
      SubseqMembers(listeners, ls);
      var n := |ms|;
      forall k | 0 <= k < |L0|
        ensures && (L0[k] in listeners <==> Stays(L0[k].maxsize, |held[k]|, n + 1))
                && L0[k].items == held[k] + (ms + [m])[..Accepted(L0[k].maxsize, |held[k]|, n + 1)]
      {
        if L0[k] in ls {
          var j :| 0 <= j < |ls| && ls[j] == L0[k];
          assert ls[j] != q;
        }
        ReceivedStep(L0[k].maxsize, held[k], ms, m, old(L0[k].items), L0[k] in ls, L0[k].items, L0[k] in listeners);
      }
    }

    /** The stream ends: its mailbox is unregistered, and the others that
        were registered before it connected are left as they were. */
    method Disconnect(q: Mailbox, ghost L0: seq<Mailbox>, ghost held: seq<seq<string>>, ghost ms: seq<string>)
      requires Valid() && q !in L0
      requires Subseq(listeners, L0 + [q]) && Received(L0, held, listeners, ms)
      modifies this
      ensures Valid() && q !in listeners
      ensures Subseq(listeners, L0) && Received(L0, held, listeners, ms)
      ensures outputFrame == old(outputFrame) && latestDetections == old(latestDetections)
      ensures currentConfidence == old(currentConfidence) && statusData == old(statusData)
    {
      ghost var ls := listeners;
      Unsubscribe(q);
      assert Subseq(listeners, L0) by {
        SubseqWithout(ls, L0 + [q], {q});
        WithoutAppend(L0, [q], {q});
        assert Without([q], {q}) == [];
        WithoutNotIn(L0, {q});
        assert Without(L0 + [q], {q}) == L0;
      }
      forall k | 0 <= k < |L0|
        ensures L0[k] in listeners <==> L0[k] in ls
      {
        WithoutMember(ls, {q}, L0[k]);
      }
    }

    /** One message published while the stream of `q` is connected, and
        the stream forwarding what its queue holds, the message last. */
    method Deliver(m: string, q: Mailbox) returns (c: seq<string>)
      requires Valid() && q in listeners && q.maxsize == 0
      modifies this, listeners
      ensures Valid() && q in listeners && q.items == []
      ensures c == SseRecords(old(q.items) + [m])
      ensures outputFrame == old(outputFrame) && latestDetections == old(latestDetections)
      ensures currentConfidence == old(currentConfidence) && statusData == old(statusData)
      ensures Subseq(listeners, old(listeners))
      ensures forall k :: 0 <= k < |old(listeners)| && old(listeners)[k] != q ==>
                && (old(listeners)[k] in listeners <==> !old(listeners[k].Full()))
                && old(listeners)[k].items ==
                     if old(listeners[k].Full()) then old(listeners[k].items) else old(listeners[k].items) + [m]
    {
      ghost var before := listeners;
      Notify(m);
      ghost var k :| 0 <= k < |before| && before[k] == q;
      assert q in listeners && q.items == old(q.items) + [m];
      c := Forward(q);
    }

    /** One pass of the camera loop. `ret` is what the camera read returned,
        `inference` what the detector made of the frame, `jpeg` the encoded
        frame (`None` where the encoder raised), `times(k)` the time text
        of the `k`-th clock read while the payload is built and `confText`
        the `%.3f` formatting of a confidence. */
    method CameraCycle(ret: bool, inference: Inference, jpeg: Option<seq<byte>>, times: nat -> string, confText: real -> string)
      requires Valid()
      modifies this, listeners
      ensures Valid()
      ensures currentConfidence == old(currentConfidence) && statusData == old(statusData)
      ensures !ret || inference.Failed? ==> outputFrame == old(outputFrame) && latestDetections == old(latestDetections)
      ensures ret && !inference.Failed? ==>
                latestDetections == if inference.NoModel? then [] else Detections(inference.rows, currentConfidence)
      ensures ret && !inference.Failed? ==> outputFrame == if jpeg.Some? then jpeg else old(outputFrame)
      ensures ret && !inference.Failed? && jpeg.Some? && latestDetections != [] ==>
                FannedOut(old(listeners), listeners, DetectPayload(times, latestDetections, confText))
      ensures !(ret && !inference.Failed? && jpeg.Some? && latestDetections != []) ==> Untouched(old(listeners), listeners)
    {
      if ret && !inference.Failed? {
        var dets: seq<Detection> := [];
        if inference.Rows? {
          dets := FilterRows(inference.rows, currentConfidence);
        }
        latestDetections := dets;
        if jpeg.Some? {
          outputFrame := jpeg;
          if dets != [] {
            Notify(DetectPayload(times, dets, confText));
          }
        }
      }
    }

    /** `/update_status`: `body` is the request's JSON (`None` where it does
        not parse, which aborts the request), `show` prints the status
        dictionary as Python does. */
    method UpdateStatus(body: Option<Json>, ts: string, show: Dict -> string) returns (ok: bool)
      requires Valid()
      modifies this, listeners
      ensures Valid()
      ensures ok <==> body.Some?
      ensures outputFrame == old(outputFrame) && latestDetections == old(latestDetections)
      ensures currentConfidence == old(currentConfidence)
      ensures !ok ==> statusData == old(statusData) && Untouched(old(listeners), listeners)
      ensures ok ==> statusData == if body.value.JObject? then Merge(old(statusData), body.value.members) else old(statusData)
      ensures ok ==> FannedOut(old(listeners), listeners, StatusEvent(ts, show(statusData)))
    {
      ok := body.Some?;
      if ok {
        if body.value.JObject? {
          MergeKeys(statusData, body.value.members);
          statusData := Merge(statusData, body.value.members);
        }
        Notify(StatusEvent(ts, show(statusData)));
      }
    }

    /** `/chat`: `body` is the request's JSON, `answer` what the assistant
        call came back with. Only a JSON object gets as far as the call; the
        reply is published and returned. */
    method Chat(body: Option<Json>, answer: Answer, ts: string) returns (reply: Option<string>)
      requires Valid()
      modifies this, listeners
      ensures Valid()
      ensures outputFrame == old(outputFrame) && latestDetections == old(latestDetections)
      ensures currentConfidence == old(currentConfidence) && statusData == old(statusData)
      ensures reply.Some? <==> body.Some? && body.value.JObject?
      ensures reply.Some? ==> reply.value == ReplyText(answer)
      ensures reply.Some? ==> FannedOut(old(listeners), listeners, AssistantEvent(ts, reply.value))
      ensures reply.None? ==> Untouched(old(listeners), listeners)
    {
      if body.Some? && body.value.JObject? {
        var text := ReplyText(answer);
        Notify(AssistantEvent(ts, text));
        reply := Some(text);
      } else {
        reply := None;
      }
    }

    /** The next part `/video_feed` sends: nothing while no frame has been
        stored, otherwise the latest frame in its part. */
    function NextPart(): (part: Option<seq<byte>>)
      reads this
      ensures part.None? <==> outputFrame.None?
      ensures part.Some? ==> ParsePart(part.value) == outputFrame
    {
      match outputFrame
      case None => None
      case Some(frame) =>
        PartRoundTrip(frame);
        Some(MjpegPart(frame))
    }
  }

  /** The text `/chat` replies with for each outcome of the assistant call. */
  function ReplyText(answer: Answer): (reply: string)
    ensures answer.Replied? ==> reply == answer.text
    ensures !answer.Replied? ==> reply != ""
    ensures answer.Error? ==> |reply| > |answer.error| && reply[|reply| - |answer.error|..] == answer.error
  {
    match answer
    case Replied(t) => t
    case NoReplyField => "(no reply)"
    case Error(e) => "(assistant error) " + e
  }
}
