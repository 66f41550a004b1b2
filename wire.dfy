/** What the live-status server puts on the wire: the parts of the
    `/video_feed` MJPEG stream, the records of the `/events` server-sent
    event stream, and the text of a `DETECT` event. Formatting a confidence
    with `%.3f` and reading the clock are outside the model: the timestamp
    text and the confidence formatter are parameters. */
module Wire {
  import opened Text
  import opened Wrappers

  newtype byte = x: int | 0 <= x < 256

  /** The bytes of an ASCII text. */
  function Ascii(s: string): (r: seq<byte>)
    requires forall i :: 0 <= i < |s| ==> s[i] as int < 128
    ensures |r| == |s|
  {
    seq(|s|, i requires 0 <= i < |s| => s[i] as int as byte)
  }

  // ---------------------------------------------------------------------
  // MJPEG parts (`multipart/x-mixed-replace; boundary=frame`)

  /** The header of every part: the boundary line, then one header field,
      then the empty line that ends the headers. */
  const PartHead: seq<byte> := Ascii("--frame\r\nContent-Type: image/jpeg\r\n\r\n")
  const CRLF: seq<byte> := Ascii("\r\n")

  /** The number of bytes a part adds around its frame. */
  const PartOverhead: nat := 39

  /** One part of the `/video_feed` stream for one JPEG frame. */
  function MjpegPart(frame: seq<byte>): (part: seq<byte>)
    ensures |part| == |frame| + PartOverhead
  {
    PartHead + frame + CRLF
  }

  /** Reads the frame back out of a part; `None` for anything that is not
      a part. */
  function ParsePart(part: seq<byte>): (r: Option<seq<byte>>)
    ensures r.Some? ==> |r.value| + PartOverhead == |part|
  {
    if |part| >= PartOverhead && part[..|PartHead|] == PartHead && part[|part| - 2..] == CRLF
    then Some(part[|PartHead|..|part| - 2])
    else None
  }

  /** Property: the frame can be read back from its part, whatever bytes it
      holds; so different frames never give the same part. */
  lemma PartRoundTrip(frame: seq<byte>)
    ensures ParsePart(MjpegPart(frame)) == Some(frame)
  {
    var part := MjpegPart(frame);
    assert part[..|PartHead|] == PartHead;
    assert part[|part| - 2..] == CRLF;
    assert part[|PartHead|..|part| - 2] == frame;
  }

  lemma PartInjective(f: seq<byte>, g: seq<byte>)
    ensures MjpegPart(f) == MjpegPart(g) ==> f == g
  {
    PartRoundTrip(f);
    PartRoundTrip(g);
  }

  /** Property: between two consecutive parts of the stream stand exactly
      the bytes `CRLF "--" boundary`, the delimiter of section 5.1.1 of
      RFC 2046 for the boundary `frame`. */
  lemma PartsDelimited(f: seq<byte>, g: seq<byte>)
    ensures var n := |MjpegPart(f)|;
            (MjpegPart(f) + MjpegPart(g))[n - 2..n + 7] == Ascii("\r\n--frame")
  {
    var n := |MjpegPart(f)|;
    var s := MjpegPart(f) + MjpegPart(g);
    assert s[n - 2..n] == CRLF;
    assert s[n..n + 7] == PartHead[..7];
    assert s[n - 2..n + 7] == s[n - 2..n] + s[n..n + 7];
    var d := Ascii("\r\n--frame");
    forall k | 0 <= k < 9
      ensures (CRLF + PartHead[..7])[k] == d[k]
    {
      if k < 2 {
        assert CRLF[k] == "\r\n"[k] as int as byte;
      } else {
        assert PartHead[k - 2] == "--frame\r\nContent-Type: image/jpeg\r\n\r\n"[k - 2] as int as byte;
      }
    }
    assert CRLF + PartHead[..7] == d;
  }

  // ---------------------------------------------------------------------
  // Server-sent events

  /** The record the `/events` stream sends for one message. */
  function SseRecord(m: string): (r: string)
    ensures |r| == |m| + 8
  {
    "data: " + m + "\n\n"
  }

  /** Reads the message back out of a record; `None` for anything else. */
  function SseData(r: string): (m: Option<string>)
    ensures m.Some? ==> |m.value| + 8 == |r|
  {
    if |r| >= 8 && r[..6] == "data: " && r[|r| - 2..] == "\n\n" then Some(r[6..|r| - 2]) else None
  }

  /** Property: the message can be read back from its record. */
  lemma SseRoundTrip(m: string)
    ensures SseData(SseRecord(m)) == Some(m)
  {
    var r := SseRecord(m);
    assert r[..6] == "data: ";
    assert r[|r| - 2..] == "\n\n";
    assert r[6..|r| - 2] == m;
  }

  /** The records the stream sends for a run of messages, one per message. */
  function SseRecords(ms: seq<string>): (rs: seq<string>)
    ensures |rs| == |ms|
  {
    seq(|ms|, k requires 0 <= k < |ms| => SseRecord(ms[k]))
  }

  /** Property: every record of a run carries its own message, in order. */
  lemma SseRecordsRoundTrip(ms: seq<string>)
    ensures forall k :: 0 <= k < |ms| ==> SseData(SseRecords(ms)[k]) == Some(ms[k])
  {
    forall k | 0 <= k < |ms|
      ensures SseData(SseRecords(ms)[k]) == Some(ms[k])
    {
      SseRoundTrip(ms[k]);
    }
  }

  /** Sending one more message adds its record at the end. */
  lemma SseRecordsSnoc(ms: seq<string>, m: string)
    ensures SseRecords(ms + [m]) == SseRecords(ms) + [SseRecord(m)]
  {
  }

  lemma SseRecordsPrefix(ms: seq<string>, i: int)
    requires 0 <= i < |ms|
    ensures SseRecords(ms[..i + 1]) == SseRecords(ms[..i]) + SseRecords([ms[i]])
  {
    assert ms[..i + 1] == ms[..i] + [ms[i]];
    SseRecordsSnoc(ms[..i], ms[i]);
  }

  /** Property: a message without line breaks is sent as one `data:` line
      followed by the empty line that ends the event (section 9.2 of the
      WHATWG HTML Living Standard). */
  lemma SseSingleLine(m: string)
    requires '\n' !in m
    ensures Split(SseRecord(m), '\n') == ["data: " + m, "", ""]
  {
    assert SseRecord(m) == Join(["data: " + m, "", ""], '\n');
    SplitJoin(["data: " + m, "", ""], '\n');
  }

  /** Property: a message of several lines is sent as they are, so only its
      first line carries the `data: ` field name; the lines after it reach
      the client as lines of their own. */
  lemma SseMultiLine(lines: seq<string>)
    requires |lines| >= 1 && forall k :: 0 <= k < |lines| ==> '\n' !in lines[k]
    ensures Split(SseRecord(Join(lines, '\n')), '\n') == ["data: " + lines[0]] + lines[1..] + ["", ""]
  {
    var all := ["data: " + lines[0]] + lines[1..] + ["", ""];
    SseRecordJoin(lines);
    SseLinesPlain(lines);
    SplitJoin(all, '\n');
  }

  lemma SseRecordJoin(lines: seq<string>)
    requires |lines| >= 1
    ensures SseRecord(Join(lines, '\n')) == Join(["data: " + lines[0]] + lines[1..] + ["", ""], '\n')
  {
    var first := ["data: " + lines[0]] + lines[1..];
    JoinPrefix("data: ", lines, '\n');
    JoinAppend(first, ["", ""], '\n');
  }

  lemma SseLinesPlain(lines: seq<string>)
    requires |lines| >= 1 && forall k :: 0 <= k < |lines| ==> '\n' !in lines[k]
    ensures var all := ["data: " + lines[0]] + lines[1..] + ["", ""];
            forall k :: 0 <= k < |all| ==> '\n' !in all[k]
  {
    var all := ["data: " + lines[0]] + lines[1..] + ["", ""];
    forall k | 0 <= k < |all|
      ensures '\n' !in all[k]
    {
      if k == 0 {
        assert all[0] == "data: " + lines[0];
        assert '\n' !in "data: ";
      } else if k < |lines| {
        assert all[k] == lines[k];
      } else {
        assert all[k] == "";
      }
    }
  }

  // ---------------------------------------------------------------------
  // Event texts

  /** One detection in a `DETECT` event: `DETECT|<time>|<class>|<confidence>`. */
  function DetectRecord(ts: string, cls: string, conf: string): (r: string)
    ensures |r| == 9 + |ts| + |cls| + |conf|
  {
    "DETECT|" + ts + "|" + cls + "|" + conf
  }

  /** Property: splitting a record on `|` gives its four fields back, as
      long as none of them holds a `|`. */
  lemma DetectRecordFields(ts: string, cls: string, conf: string)
    requires '|' !in ts && '|' !in cls && '|' !in conf
    ensures Split(DetectRecord(ts, cls, conf), '|') == ["DETECT", ts, cls, conf]
  {
    var fields := ["DETECT", ts, cls, conf];
    assert Join(fields[3..], '|') == conf;
    assert Join(fields[2..], '|') == cls + "|" + conf;
    assert Join(fields[1..], '|') == ts + "|" + (cls + "|" + conf);
    assert DetectRecord(ts, cls, conf) == Join(fields, '|');
    SplitJoin(fields, '|');
  }

  /** The event `/update_status` publishes: the time and the printed
      status. A client splitting it on `|` finds the tag, then the time,
      then the pieces of the status. */
  function StatusEvent(ts: string, status: string): (e: string)
    ensures '|' !in ts ==> Split(e, '|') == ["STATUS", ts] + Split(status, '|')
  {
    TaggedFields("STATUS", ts, status);
    "STATUS" + "|" + ts + "|" + status
  }

  /** The event `/chat` publishes: the time and the assistant's reply. A
      client splitting it on `|` finds the tag, then the time, then the
      pieces of the reply. */
  function AssistantEvent(ts: string, reply: string): (e: string)
    ensures '|' !in ts ==> Split(e, '|') == ["ASSISTANT", ts] + Split(reply, '|')
  {
    TaggedFields("ASSISTANT", ts, reply);
    "ASSISTANT" + "|" + ts + "|" + reply
  }

  lemma TaggedFields(tag: string, ts: string, text: string)
    requires '|' !in tag
    ensures '|' !in ts ==> Split(tag + "|" + ts + "|" + text, '|') == [tag, ts] + Split(text, '|')
  {
    if '|' !in ts {
      var rest := ts + "|" + text;
      assert tag + "|" + ts + "|" + text == tag + ['|'] + rest;
      SplitAtSep(tag, '|', rest);
      SplitAtSep(ts, '|', text);
    }
  }
}
