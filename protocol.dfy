/** Both halves of FileTransfer together: what process_received_data makes of the writes
    of send_file when every write arrives as exactly one buffer. */
module Protocol {
  import opened Wire
  import opened Sender
  import opened Receiver

  /** One process_received_data call per buffer, in order, by a caller that drops the
      bytes each call hands back, so that the next call sees only the next buffer. */
  function Deliver(s: RxState, buffers: seq<seq<byte>>): (r: RxState)
    requires Inv(s)
    ensures Inv(r)
    decreases |buffers|
  {
    if buffers == [] then s else Deliver(Process(s, buffers[0]).state, buffers[1..])
  }

  /** No chunk of the file starts with a whole progress marker. */
  predicate NoMarkerInChunks(steps: seq<Step>)
  {
    forall i :: 0 <= i < |steps| ==> ParseMarker(steps[i].chunk).NoMarker?
  }

  lemma DeliverPair(s: RxState, first: seq<byte>, second: seq<byte>, rest: seq<seq<byte>>)
    requires Inv(s)
    ensures Deliver(s, [first, second] + rest) == Deliver(Process(Process(s, first).state, second).state, rest)
  {
    var buffers := [first, second] + rest;
    assert buffers[1..] == [second] + rest;
    assert buffers[1..][1..] == rest;
  }

  /** A chunk that is not a marker, read at `sent` of the file, is written whole; the file
      is closed once it reaches the end. */
  lemma ChunkWritten(downloads: map<seq<byte>, seq<byte>>, name: seq<byte>, content: seq<byte>, sent: nat)
    requires sent < |content| < Pow256(8)
    requires ParseMarker(Read(content, sent)).NoMarker?
    ensures var next := sent + |Read(content, sent)|;
      var s := RxState(Some(name), |content|, sent, downloads[name := content[..sent]]);
      Inv(s) &&
      Process(s, Read(content, sent)).state
        == RxState(if next >= |content| then None else Some(name), |content|, next, downloads[name := content[..next]])
  {
    var chunk := Read(content, sent);
    var next := sent + |chunk|;
    var s := RxState(Some(name), |content|, sent, downloads[name := content[..sent]]);
    assert content[..sent] + chunk == content[..next];
    assert Inv(s);
    WriteBound(s, chunk);
    assert Min(|chunk|, |content| - sent) == |chunk| && chunk[..|chunk|] == chunk;
  }

  /** The receiver with `sent` bytes of the file written, fed the writes of the rest of
      the loop: it writes the remaining chunks, ignores the markers, closes the file
      after the last chunk and then waits on the trailing marker. */
  lemma {:induction false} DeliverChunks(downloads: map<seq<byte>, seq<byte>>, name: seq<byte>, content: seq<byte>, sent: nat)
    requires sent < |content| < Pow256(8)
    requires NoMarkerInChunks(Steps(content, |content|, sent))
    ensures var s := RxState(Some(name), |content|, sent, downloads[name := content[..sent]]);
      Inv(s) &&
      Deliver(s, Writes(Steps(content, |content|, sent), |content|).writes)
        == RxState(None, |content|, |content|, downloads[name := content])
    decreases |content| - sent
  {
    var size := |content|;
    var s := RxState(Some(name), size, sent, downloads[name := content[..sent]]);
    var chunk := Read(content, sent);
    var next := sent + |chunk|;
    var steps := Steps(content, size, sent);
    var tail := Steps(content, size, next);
    assert steps == [Step(chunk, next)] + tail;
    assert steps[0].chunk == chunk;
    WritesUnfold(content, size, sent);
    PercentBounds(next, size);
    var percent := Percent(next, size) as byte;
    var rest := Writes(tail, size).writes;
    DeliverPair(s, chunk, EncodeMarker(percent), rest);
    ChunkWritten(downloads, name, content, sent);
    var afterChunk := Process(s, chunk).state;
    assert EncodeMarker(percent) + [] == EncodeMarker(percent);
    if next >= size {
      // the file is complete; the marker is taken for the start of a header
      assert content[..next] == content;
      assert tail == [];
      TrailingMarkerStalls(afterChunk, percent, []);
    } else {
      MarkerReported(afterChunk, percent, []);
      forall i | 0 <= i < |tail|
        ensures ParseMarker(tail[i].chunk).NoMarker?
      {
        assert tail[i] == steps[i + 1];
      }
      DeliverChunks(downloads, name, content, next);
    }
  }

  /** A whole non-empty file sent by send_file and received one write per buffer ends
      with the file closed and holding exactly the bytes of the file, provided none of
      its chunks starts with a whole progress marker. */
  lemma WholeFileDelivered(s: RxState, name: seq<byte>, content: seq<byte>)
    requires Awaiting(s) && Encodable(name, |content|) && content != []
    requires NoMarkerInChunks(FileSteps(content))
    ensures Deliver(s, Outbound(name, content, |content|).writes)
         == RxState(None, |content|, |content|, s.downloads[name := content])
  {
    var size := |content|;
    var header := EncodeHeader(name, size);
    var body := Body(content, size).writes;
    assert Outbound(name, content, size).writes == [header] + body;
    HeaderOpensFile(s, name, size, []);
    assert header + [] == header;
    assert ([header] + body)[1..] == body;
    assert content[..0] == [];
    DeliverChunks(s.downloads, name, content, 0);
  }

  /** The file "a.txt" holding "xyz": send_file writes the header, the three bytes and a
      marker of 100 percent, and a fresh receiver ends with "a.txt" holding "xyz". */
  lemma ExampleTransfer()
    ensures var name: seq<byte> := [0x61, 0x2E, 0x74, 0x78, 0x74];
      var content: seq<byte> := [0x78, 0x79, 0x7A];
      Encodable(name, 3) &&
      Outbound(name, content, 3) == Plan([EncodeHeader(name, 3), content, EncodeMarker(100)], true) &&
      Deliver(RxState(None, 0, 0, map[]), Outbound(name, content, 3).writes) == RxState(None, 3, 3, map[name := content])
  {
    var name: seq<byte> := [0x61, 0x2E, 0x74, 0x78, 0x74];
    var content: seq<byte> := [0x78, 0x79, 0x7A];
    Pow256Widths();
    assert Read(content, 0) == content;
    assert Steps(content, 3, 0) == [Step(content, 3)];
    assert Percent(3, 3) == 100;
    assert Body(content, 3).writes == [content, EncodeMarker(100)];
    WholeFileDelivered(RxState(None, 0, 0, map[]), name, content);
  }

  /** A freshly opened file receiving all of its bytes in one call, followed by `more`:
      the file is written whole and closed, and `more` is handed back. */
  lemma WholeFileInOneCall(downloads: map<seq<byte>, seq<byte>>, name: seq<byte>, content: seq<byte>, more: seq<byte>)
    requires 0 < |content| < Pow256(8) && ParseMarker(content + more).NoMarker?
    ensures var r := RxState(Some(name), |content|, 0, downloads[name := []]);
      Inv(r) &&
      Process(r, content + more)
        == Outcome(RxState(None, |content|, |content|, downloads[name := content]), Reply(more, Some(FileProgress(100))))
  {
    var r := RxState(Some(name), |content|, 0, downloads[name := []]);
    var data := content + more;
    WriteBound(r, data);
    assert Min(|data|, |content|) == |content|;
    assert data[..|content|] == content && data[|content|..] == more;
    assert [] + content == content;
    assert r.downloads[name := [] + content] == downloads[name := content];
  }

  /** A file sent as one buffer (the header, the file and one marker), each call fed the
      bytes the previous one handed back: the header call reports the file, the next
      call writes the whole file and closes it with progress 100, and the marker left
      over then waits as the start of a header. */
  lemma OneBufferTransfer(s: RxState, name: seq<byte>, content: seq<byte>, percent: byte)
    requires Awaiting(s) && Encodable(name, |content|) && content != []
    requires ParseMarker(content + EncodeMarker(percent)).NoMarker?
    ensures var tail := content + EncodeMarker(percent);
      var first := Process(s, EncodeHeader(name, |content|) + tail);
      var second := Process(first.state, tail);
      var third := Process(second.state, EncodeMarker(percent));
      first.reply == Reply(tail, Some(FileInfo(name, |content|))) &&
      second.reply == Reply(EncodeMarker(percent), Some(FileProgress(100))) &&
      second.state == RxState(None, |content|, |content|, s.downloads[name := content]) &&
      third == Outcome(second.state, Reply(EncodeMarker(percent), None))
  {
    var tail := content + EncodeMarker(percent);
    HeaderOpensFile(s, name, |content|, tail);
    WholeFileInOneCall(s.downloads, name, content, EncodeMarker(percent));
    TrailingMarkerStalls(RxState(None, |content|, |content|, s.downloads[name := content]), percent, []);
    assert EncodeMarker(percent) + [] == EncodeMarker(percent);
  }

  /** The file "a.txt" holding "xyz" as one buffer. */
  lemma ExampleStream()
    ensures var name: seq<byte> := [0x61, 0x2E, 0x74, 0x78, 0x74];
      var content: seq<byte> := [0x78, 0x79, 0x7A];
      var first := Process(RxState(None, 0, 0, map[]), EncodeHeader(name, 3) + content + EncodeMarker(100));
      var second := Process(first.state, content + EncodeMarker(100));
      first.reply == Reply(content + EncodeMarker(100), Some(FileInfo(name, 3))) &&
      second.reply == Reply(EncodeMarker(100), Some(FileProgress(100))) &&
      second.state == RxState(None, 3, 3, map[name := content])
  {
    var name: seq<byte> := [0x61, 0x2E, 0x74, 0x78, 0x74];
    var content: seq<byte> := [0x78, 0x79, 0x7A];
    var tail := content + EncodeMarker(100);
    Pow256Widths();
    assert EncodeHeader(name, 3) + content + EncodeMarker(100) == EncodeHeader(name, 3) + tail;
    assert tail[..9][0] != ProgressTag[0];
    OneBufferTransfer(RxState(None, 0, 0, map[]), name, content, 100);
  }
}
