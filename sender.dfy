/** What FileTransfer.send_file puts on the link: the header, then one chunk of at most
    1024 bytes and one progress marker per turn of its read loop. `content` is what the
    file's reads return and `fileSize` what os.path.getsize reported; the two differ only
    when the file changes during the transfer. */
module Sender {
  import opened Wire
  import opened Transport

  const ChunkSize: nat := 1024

  /** file.read(1024) with the file position at `pos`. */
  function Read(content: seq<byte>, pos: nat): (chunk: seq<byte>)
    requires pos <= |content|
    ensures |chunk| <= ChunkSize && pos + |chunk| <= |content|
    ensures chunk == content[pos..pos + |chunk|]
    ensures chunk == [] <==> pos == |content|
    ensures |chunk| == Min(ChunkSize, |content| - pos)
  {
    content[pos..Min(pos + ChunkSize, |content|)]
  }

  /** One turn of the send loop: the chunk read and the byte count sent_bytes reaches with it. */
  datatype Step = Step(chunk: seq<byte>, sentAfter: nat)

  /** The turns of the send loop from `sent` bytes on: it runs while sent < fileSize and
      stops early at the first empty read. */
  function Steps(content: seq<byte>, fileSize: nat, sent: nat): seq<Step>
    requires sent <= |content|
    decreases fileSize - sent
  {
    if sent >= fileSize then []
    else
      var chunk := Read(content, sent);
      if chunk == [] then []
      else [Step(chunk, sent + |chunk|)] + Steps(content, fileSize, sent + |chunk|)
  }

  /** The writes made, in order, and whether the sequence ends without an error of its own. */
  datatype Plan = Plan(writes: seq<seq<byte>>, clean: bool)

  /** Each turn writes its chunk and then its marker; a percent that does not fit the
      marker's byte makes struct.pack raise, which ends the send after that chunk. */
  function Writes(steps: seq<Step>, fileSize: nat): (p: Plan)
    requires steps != [] ==> fileSize > 0
  {
    if steps == [] then Plan([], true)
    else
      var percent := Percent(steps[0].sentAfter, fileSize);
      if percent > 255 then Plan([steps[0].chunk], false)
      else
        var rest := Writes(steps[1..], fileSize);
        Plan([steps[0].chunk, EncodeMarker(percent as byte)] + rest.writes, rest.clean)
  }

  /** The loop runs only while sent < fileSize, so it never runs for an empty file. */
  lemma StepsNeedSize(content: seq<byte>, fileSize: nat, sent: nat)
    requires sent <= |content|
    ensures Steps(content, fileSize, sent) != [] ==> fileSize > 0
  {
  }

  /** One turn of the loop: read a chunk, write it, then write its marker unless its
      percent does not fit a byte. */
  lemma WritesUnfold(content: seq<byte>, fileSize: nat, sent: nat)
    requires sent < fileSize && sent < |content|
    ensures var chunk := Read(content, sent);
      var next := sent + |chunk|;
      var percent := Percent(next, fileSize);
      chunk != [] && next <= |content| &&
      Writes(Steps(content, fileSize, sent), fileSize) ==
        if percent > 255 then Plan([chunk], false)
        else Plan([chunk, EncodeMarker(percent as byte)] + Writes(Steps(content, fileSize, next), fileSize).writes,
                  Writes(Steps(content, fileSize, next), fileSize).clean)
  {
    var chunk := Read(content, sent);
    var steps := Steps(content, fileSize, sent);
    assert steps == [Step(chunk, sent + |chunk|)] + Steps(content, fileSize, sent + |chunk|);
    assert steps[1..] == Steps(content, fileSize, sent + |chunk|);
  }

  /** The loop runs no turn exactly when nothing remains to send or to read, and each
      turn consumes at least one byte of the file. */
  lemma {:induction false} StepsLength(content: seq<byte>, fileSize: nat, sent: nat)
    requires sent <= |content|
    ensures Steps(content, fileSize, sent) == [] <==> sent >= fileSize || sent == |content|
    ensures |Steps(content, fileSize, sent)| <= |content| - sent
    decreases fileSize - sent
  {
    if sent < fileSize && sent < |content| {
      StepsLength(content, fileSize, sent + |Read(content, sent)|);
    }
  }

  /** The writes of the loop of send_file. */
  function Body(content: seq<byte>, fileSize: nat): (body: Plan)
    ensures fileSize == 0 || content == [] ==> body == Plan([], true)
  {
    StepsNeedSize(content, fileSize, 0);
    StepsLength(content, fileSize, 0);
    Writes(Steps(content, fileSize, 0), fileSize)
  }

  /** Everything send_file writes for one file: nothing if the header cannot be packed,
      otherwise the header and then the writes of the loop. */
  function Outbound(name: seq<byte>, content: seq<byte>, fileSize: nat): (p: Plan)
    ensures p.writes != [] <==> Encodable(name, fileSize)
    ensures p.writes != [] ==> p.writes[0] == EncodeHeader(name, fileSize)
  {
    if !Encodable(name, fileSize) then Plan([], false)
    else
      var body := Body(content, fileSize);
      Plan([EncodeHeader(name, fileSize)] + body.writes, body.clean)
  }

  /** What send_file returns on a link in state `s`: true exactly when the header and every
      chunk got through. Only the last write may be lost, and only when it is a progress
      marker, since a failed marker is ignored and the loop then ends. */
  predicate Reports(s: LinkState, p: Plan)
    ensures Reports(s, p) <==>
      s.connected && p.clean && p.writes != [] &&
      |AfterSends(s, p.writes).log| >= |s.log| + 1 &&
      |AfterSends(s, p.writes).log| >= |s.log| + |p.writes| - 1
  {
    if !s.connected then false
    else
      AfterSendsDelivers(s, p.writes);
      p.clean && p.writes != [] &&
      (s.healthyWrites >= |p.writes| || (|p.writes| > 1 && s.healthyWrites == |p.writes| - 1))
  }

  /** Whether the loop of send_file, entered with a link that accepts `healthyWrites` more
      writes, ends with send_file returning true: the plan is clean and at most its last
      write, a progress marker whose failure send_file ignores, is lost. */
  predicate Completes(healthyWrites: nat, p: Plan)
    ensures Completes(healthyWrites, p) <==>
      p.clean && |AfterSends(LinkState(true, healthyWrites, []), p.writes).log| >= |p.writes| - 1
  {
    AfterSendsDelivers(LinkState(true, healthyWrites, []), p.writes);
    p.clean && (healthyWrites >= |p.writes| || (p.writes != [] && healthyWrites == |p.writes| - 1))
  }

  /** A chunk lost on the link ends the send with false, and the link ignores the rest. */
  lemma ChunkLost(s: LinkState, before: seq<seq<byte>>, rest: Plan, body: Plan)
    requires s.connected && s.healthyWrites <= |before|
    requires rest.writes != [] && (rest.clean ==> |rest.writes| >= 2)
    requires body.writes == before + rest.writes && body.clean == rest.clean
    ensures AfterSends(s, body.writes) == AfterSends(s, before + [rest.writes[0]])
    ensures !Completes(s.healthyWrites, body)
  {
    var done := before + [rest.writes[0]];
    assert body.writes == done + rest.writes[1..];
    AfterSendsDelivers(s, done);
    AfterSendsStops(s, done, rest.writes[1..]);
  }

  function Payload(steps: seq<Step>): seq<byte>
  {
    if steps == [] then [] else steps[0].chunk + Payload(steps[1..])
  }

  /** The chunks are non-empty, at most 1024 bytes each, and are the file read in order
      from `sent`; the loop stops once fileSize bytes are sent or the reads run out. */
  lemma {:induction false} StepsPayload(content: seq<byte>, fileSize: nat, sent: nat)
    requires sent <= |content|
    ensures var steps := Steps(content, fileSize, sent);
      var total := sent + |Payload(steps)|;
      (forall i :: 0 <= i < |steps| ==> 1 <= |steps[i].chunk| <= ChunkSize) &&
      total <= |content| &&
      Payload(steps) == content[sent..total] &&
      (total >= fileSize || total == |content|)
    decreases fileSize - sent
  {
    var steps := Steps(content, fileSize, sent);
    if sent < fileSize && sent < |content| {
      var chunk := Read(content, sent);
      var next := sent + |chunk|;
      var tail := Steps(content, fileSize, next);
      assert steps == [Step(chunk, next)] + tail;
      StepsPayload(content, fileSize, next);
      assert steps[1..] == tail;
      assert Payload(steps) == chunk + Payload(tail);
      forall i | 0 <= i < |steps|
        ensures 1 <= |steps[i].chunk| <= ChunkSize
      {
        if i > 0 {
          assert steps[i] == tail[i - 1];
        }
      }
    }
  }

  /** sent_bytes strictly grows from `sent` and never passes the end of the file. */
  lemma {:induction false} StepsCounts(content: seq<byte>, fileSize: nat, sent: nat)
    requires sent <= |content|
    ensures forall i :: 0 <= i < |Steps(content, fileSize, sent)| ==>
      sent < Steps(content, fileSize, sent)[i].sentAfter <= |content|
    ensures forall i, j :: 0 <= i < j < |Steps(content, fileSize, sent)| ==>
      Steps(content, fileSize, sent)[i].sentAfter < Steps(content, fileSize, sent)[j].sentAfter
    decreases fileSize - sent
  {
    var steps := Steps(content, fileSize, sent);
    if sent < fileSize && sent < |content| {
      var chunk := Read(content, sent);
      var next := sent + |chunk|;
      var tail := Steps(content, fileSize, next);
      assert steps == [Step(chunk, next)] + tail;
      StepsCounts(content, fileSize, next);
      forall i | 0 <= i < |steps|
        ensures sent < steps[i].sentAfter <= |content|
      {
        if i > 0 {
          assert steps[i] == tail[i - 1];
        }
      }
      forall i, j | 0 <= i < j < |steps|
        ensures steps[i].sentAfter < steps[j].sentAfter
      {
        assert steps[j] == tail[j - 1];
        if i > 0 {
          assert steps[i] == tail[i - 1];
        }
      }
    }
  }

  /** Every turn but the last reads a full ChunkSize bytes; only the last chunk may be
      shorter. */
  lemma {:induction false} StepsFullChunks(content: seq<byte>, fileSize: nat, sent: nat)
    requires sent <= |content|
    ensures forall i :: 0 <= i < |Steps(content, fileSize, sent)| - 1 ==>
      |Steps(content, fileSize, sent)[i].chunk| == ChunkSize
    decreases fileSize - sent
  {
    var steps := Steps(content, fileSize, sent);
    if sent < fileSize && sent < |content| {
      var chunk := Read(content, sent);
      var next := sent + |chunk|;
      var tail := Steps(content, fileSize, next);
      assert steps == [Step(chunk, next)] + tail;
      StepsFullChunks(content, fileSize, next);
      forall i | 0 <= i < |steps| - 1
        ensures |steps[i].chunk| == ChunkSize
      {
        if i > 0 {
          assert steps[i] == tail[i - 1];
        } else {
          // a later turn means the reads were not yet exhausted after this one
          StepsLength(content, fileSize, next);
        }
      }
    }
  }

  /** Each turn raises sent_bytes by the length of its chunk: after turn i it is `sent`
      plus the bytes of the first i + 1 chunks. */
  lemma {:induction false} StepsSentAfter(content: seq<byte>, fileSize: nat, sent: nat)
    requires sent <= |content|
    ensures forall i :: 0 <= i < |Steps(content, fileSize, sent)| ==>
      Steps(content, fileSize, sent)[i].sentAfter == sent + |Payload(Steps(content, fileSize, sent)[..i + 1])|
    decreases fileSize - sent
  {
    var steps := Steps(content, fileSize, sent);
    if sent < fileSize && sent < |content| {
      var chunk := Read(content, sent);
      var next := sent + |chunk|;
      var tail := Steps(content, fileSize, next);
      assert steps == [Step(chunk, next)] + tail;
      StepsSentAfter(content, fileSize, next);
      forall i | 0 <= i < |steps|
        ensures steps[i].sentAfter == sent + |Payload(steps[..i + 1])|
      {
        assert steps[..i + 1][1..] == tail[..i];
        assert Payload(steps[..i + 1]) == chunk + Payload(tail[..i]);
        if i > 0 {
          assert steps[i] == tail[i - 1];
        } else {
          assert Payload(tail[..0]) == [];
        }
      }
    }
  }

  /** The last turn leaves sent_bytes at the number of bytes sent in all. */
  lemma {:induction false} StepsTotal(content: seq<byte>, fileSize: nat, sent: nat)
    requires sent <= |content|
    ensures var steps := Steps(content, fileSize, sent);
      steps != [] ==> steps[|steps| - 1].sentAfter == sent + |Payload(steps)|
    decreases fileSize - sent
  {
    var steps := Steps(content, fileSize, sent);
    if sent < fileSize && sent < |content| {
      var chunk := Read(content, sent);
      var next := sent + |chunk|;
      var tail := Steps(content, fileSize, next);
      assert steps == [Step(chunk, next)] + tail;
      StepsTotal(content, fileSize, next);
      assert steps[1..] == tail;
      assert |Payload(steps)| == |chunk| + |Payload(tail)|;
      if tail != [] {
        assert steps[|steps| - 1] == tail[|tail| - 1];
      }
    }
  }

  /** When every percent fits in a byte, the loop writes chunk, marker, chunk, marker, ...
      and ends cleanly. */
  lemma {:induction false} WritesInterleave(steps: seq<Step>, fileSize: nat)
    requires fileSize > 0
    requires forall i :: 0 <= i < |steps| ==> Percent(steps[i].sentAfter, fileSize) <= 255
    ensures var p := Writes(steps, fileSize);
      p.clean && |p.writes| == 2 * |steps| &&
      forall i :: 0 <= i < |steps| ==>
        p.writes[2 * i] == steps[i].chunk &&
        p.writes[2 * i + 1] == EncodeMarker(Percent(steps[i].sentAfter, fileSize) as byte)
  {
    if steps != [] {
      WritesInterleave(steps[1..], fileSize);
      var p := Writes(steps, fileSize);
      var rest := Writes(steps[1..], fileSize);
      forall i | 0 <= i < |steps|
        ensures p.writes[2 * i] == steps[i].chunk &&
          p.writes[2 * i + 1] == EncodeMarker(Percent(steps[i].sentAfter, fileSize) as byte)
      {
        if i > 0 {
          assert p.writes[2 * i] == rest.writes[2 * (i - 1)];
          assert p.writes[2 * i + 1] == rest.writes[2 * (i - 1) + 1];
        }
      }
    }
  }

  /** The turns of the loop for a file whose size getsize reported correctly. */
  function FileSteps(content: seq<byte>): seq<Step>
  {
    Steps(content, |content|, 0)
  }

  /** The percent sent in the marker of turn i of FileSteps(content). */
  function FilePercent(content: seq<byte>, i: nat): nat
    requires i < |FileSteps(content)|
  {
    StepsNeedSize(content, |content|, 0);
    Percent(FileSteps(content)[i].sentAfter, |content|)
  }

  /** A whole file is sent in non-empty chunks of at most 1024 bytes that together are
      the file; its percents never decrease, stay within 0..100 and end at 100. */
  lemma WholeFileProgress(content: seq<byte>)
    requires content != []
    ensures Payload(FileSteps(content)) == content
    ensures forall i :: 0 <= i < |FileSteps(content)| ==>
      1 <= |FileSteps(content)[i].chunk| <= ChunkSize && FilePercent(content, i) <= 100
    ensures forall i, j :: 0 <= i <= j < |FileSteps(content)| ==> FilePercent(content, i) <= FilePercent(content, j)
    ensures FileSteps(content) != [] && FilePercent(content, |FileSteps(content)| - 1) == 100
  {
    var size := |content|;
    var steps := FileSteps(content);
    StepsPayload(content, size, 0);
    StepsCounts(content, size, 0);
    StepsTotal(content, size, 0);
    PercentBounds(size, size);
    forall i | 0 <= i < |steps|
      ensures FilePercent(content, i) <= 100
    {
      PercentBounds(steps[i].sentAfter, size);
    }
    forall i, j | 0 <= i <= j < |steps|
      ensures FilePercent(content, i) <= FilePercent(content, j)
    {
      PercentMonotone(steps[i].sentAfter, steps[j].sentAfter, size);
    }
  }

  /** For a whole file send_file writes the header, then each chunk followed by its
      marker, and nothing else. */
  lemma WholeFileWrites(name: seq<byte>, content: seq<byte>)
    requires Encodable(name, |content|) && content != []
    ensures Outbound(name, content, |content|).clean
    ensures |Outbound(name, content, |content|).writes| == 1 + 2 * |FileSteps(content)|
    ensures Outbound(name, content, |content|).writes[0] == EncodeHeader(name, |content|)
    ensures forall i :: 0 <= i < |FileSteps(content)| ==>
      Outbound(name, content, |content|).writes[1 + 2 * i] == FileSteps(content)[i].chunk &&
      FilePercent(content, i) <= 100 &&
      Outbound(name, content, |content|).writes[2 + 2 * i] == EncodeMarker(FilePercent(content, i) as byte)
  {
    var size := |content|;
    var steps := FileSteps(content);
    WholeFileProgress(content);
    WritesInterleave(steps, size);
    var p := Outbound(name, content, size);
    var body := Writes(steps, size);
    assert body == Body(content, size);
    assert p.writes == [EncodeHeader(name, size)] + body.writes;
    forall i | 0 <= i < |steps|
      ensures p.writes[1 + 2 * i] == steps[i].chunk &&
        p.writes[2 + 2 * i] == EncodeMarker(FilePercent(content, i) as byte)
    {
      assert p.writes[1 + 2 * i] == body.writes[2 * i];
      assert p.writes[2 + 2 * i] == body.writes[2 * i + 1];
    }
  }

  /** A 0-byte file: only the header is written, with no chunk and no marker. */
  lemma EmptyFile(name: seq<byte>, content: seq<byte>)
    requires Encodable(name, 0)
    ensures Outbound(name, content, 0) == Plan([EncodeHeader(name, 0)], true)
  {
    assert Steps(content, 0, 0) == [];
    assert [EncodeHeader(name, 0)] + [] == [EncodeHeader(name, 0)];
  }

  /** A file that grew after getsize reported 1 byte: the first chunk already gives a
      percent above 255, so the send fails after that chunk, before any marker. */
  lemma GrownFile(name: seq<byte>, content: seq<byte>)
    requires Encodable(name, 1) && |content| >= 3
    ensures Outbound(name, content, 1) == Plan([EncodeHeader(name, 1), Read(content, 0)], false)
  {
    var chunk := Read(content, 0);
    assert |chunk| >= 3;
    assert Steps(content, 1, 0) == [Step(chunk, |chunk|)] + Steps(content, 1, |chunk|);
    assert Percent(|chunk|, 1) == 100 * |chunk|;
  }

  /** A header the link refuses: nothing reaches the link, which is now disconnected, and
      send_file returns false. */
  lemma HeaderLost(s: LinkState, name: seq<byte>, content: seq<byte>, fileSize: nat)
    requires s.connected && s.healthyWrites == 0 && Encodable(name, fileSize)
    ensures AfterSends(s, Outbound(name, content, fileSize).writes) == s.(connected := false)
    ensures !Reports(s, Outbound(name, content, fileSize))
  {
    var writes := Outbound(name, content, fileSize).writes;
    AfterSendsDelivers(s, writes);
    assert s.log + writes[..0] == s.log;
  }

  /** A write lost before the last one ends the send with false: a lost chunk returns at
      once, and a lost marker disconnects the link so that the next chunk is lost. The
      link holds exactly the writes before the lost one. */
  lemma EarlyLossFails(s: LinkState, p: Plan)
    requires s.connected && s.healthyWrites < |p.writes| - 1
    ensures AfterSends(s, p.writes) == LinkState(false, 0, s.log + p.writes[..s.healthyWrites])
    ensures !Reports(s, p)
  {
    AfterSendsDelivers(s, p.writes);
  }

  /** Losing the marker after the last chunk of a whole file is ignored: send_file returns
      true, and the link holds everything but that marker of 100 percent. */
  lemma FinalMarkerLossIgnored(s: LinkState, name: seq<byte>, content: seq<byte>)
    requires Encodable(name, |content|) && content != []
    requires s.connected && s.healthyWrites == |Outbound(name, content, |content|).writes| - 1
    ensures var writes := Outbound(name, content, |content|).writes;
      Reports(s, Outbound(name, content, |content|)) &&
      writes[|writes| - 1] == EncodeMarker(100) &&
      AfterSends(s, writes) == LinkState(false, 0, s.log + writes[..|writes| - 1])
  {
    var writes := Outbound(name, content, |content|).writes;
    WholeFileProgress(content);
    WholeFileWrites(name, content);
    var last := |FileSteps(content)| - 1;
    assert writes[2 + 2 * last] == EncodeMarker(FilePercent(content, last) as byte);
    AfterSendsDelivers(s, writes);
  }
}
