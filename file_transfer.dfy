/** FileTransfer: the sending loop of send_file and the receiving state machine of
    start_receiving and process_received_data, over the link it was built with. */
module Transfer {
  import opened Wire
  import opened Transport
  import opened Sender
  import opened Receiver

  lemma PairThenRest<T>(before: seq<T>, first: T, second: T, rest: seq<T>)
    ensures before + ([first, second] + rest) == before + [first] + [second] + rest
  {
  }

  class FileTransfer {
    const link: Link
    var currentFile: Option<seq<byte>>
    var fileSize: nat
    var receivedBytes: nat
    /** The Download directory: each file this engine opened, with the bytes written to it. */
    var downloads: map<seq<byte>, seq<byte>>

    function State(): RxState
      reads this
    {
      RxState(currentFile, fileSize, receivedBytes, downloads)
    }

    predicate Valid()
      reads this
    {
      Inv(State())
    }

    constructor (link: Link)
      ensures this.link == link && Valid()
      ensures State() == RxState(None, 0, 0, map[])
    {
      this.link := link;
      currentFile := None;
      fileSize := 0;
      receivedBytes := 0;
      downloads := map[];
    }

    /** send_file for a file whose basename encodes to `name`, whose reads return `content`
        and whose size os.path.getsize reported as `reportedSize`. */
    method SendFile(name: seq<byte>, content: seq<byte>, reportedSize: nat) returns (ok: bool)
      modifies link
      ensures link.State() == AfterSends(old(link.State()), Outbound(name, content, reportedSize).writes)
      ensures ok == Reports(old(link.State()), Outbound(name, content, reportedSize))
    {
      ghost var s0 := link.State();
      ghost var plan := Outbound(name, content, reportedSize);
      if !link.connected {
        AfterSendsDisconnected(s0, plan.writes);
        return false;
      }
      if !Encodable(name, reportedSize) {
        // struct.pack raises for a length or size that does not fit its field
        return false;
      }
      var header := EncodeHeader(name, reportedSize);
      ok := link.Send(header);
      assert AfterSends(s0, [header]) == AfterSend(AfterSends(s0, []), header);
      if !ok {
        AfterSendsStops(s0, [header], plan.writes[1..]);
        assert plan.writes == [header] + plan.writes[1..];
        return false;
      }
      ghost var s1 := link.State();
      ok := SendChunks(content, reportedSize);
      assert plan.writes == [header] + Body(content, reportedSize).writes;
      AfterSendsConcat(s0, [header], Body(content, reportedSize).writes);
    }

    /** The chunk loop of send_file, entered once the header got through: it reports
        failure exactly when a chunk is lost or a percent does not fit a byte. */
    method SendChunks(content: seq<byte>, reportedSize: nat) returns (ok: bool)
      requires link.connected
      modifies link
      ensures link.State() == AfterSends(old(link.State()), Body(content, reportedSize).writes)
      ensures ok == Completes(old(link.healthyWrites), Body(content, reportedSize))
    {
      ghost var s1 := link.State();
      ghost var hw := s1.healthyWrites;
      ghost var body := Body(content, reportedSize);
      ghost var done: seq<seq<byte>> := [];
      ghost var rest := body;
      var sentBytes := 0;
      while sentBytes < reportedSize
        invariant sentBytes <= |content|
        invariant rest == Writes(Steps(content, reportedSize, sentBytes), reportedSize)
        invariant body.writes == done + rest.writes && body.clean == rest.clean
        invariant link.State() == Delivered(s1, done)
        invariant hw >= |done| || (done != [] && hw == |done| - 1)
        decreases reportedSize - sentBytes
      {
        var chunk := Read(content, sentBytes);
        if chunk == [] {
          break;
        }
        ghost var before := done;
        WritesUnfold(content, reportedSize, sentBytes);
        DeliveredAppend(s1, done, chunk);
        var sentChunk := link.Send(chunk);
        done := done + [chunk];
        if !sentChunk {
          AfterSendsDelivers(s1, done);
          ChunkLost(s1, before, rest, body);
          return false;
        }
        sentBytes := sentBytes + |chunk|;
        var packed := SendProgress(sentBytes, reportedSize);
        if !packed {
          assert rest.writes == [chunk];
          AfterSendsDelivers(s1, done);
          return false;
        }
        ghost var marker := EncodeMarker(Percent(sentBytes, reportedSize) as byte);
        DeliveredAppend(s1, done, marker);
        done := done + [marker];
        rest := Writes(Steps(content, reportedSize, sentBytes), reportedSize);
        PairThenRest(before, chunk, marker, rest.writes);
      }
      assert Steps(content, reportedSize, sentBytes) == [];
      assert done == body.writes;
      AfterSendsDelivers(s1, done);
      return true;
    }

    /** The progress update of one turn of send_file: the percent of the file sent so far,
        packed into one byte and written after the marker tag; false when struct.pack
        raises because the percent does not fit a byte. */
    method SendProgress(sentBytes: nat, reportedSize: nat) returns (packed: bool)
      requires reportedSize > 0
      modifies link
      ensures packed == (Percent(sentBytes, reportedSize) <= 255)
      ensures link.State() ==
        if packed then AfterSend(old(link.State()), EncodeMarker(Percent(sentBytes, reportedSize) as byte))
        else old(link.State())
    {
      var progress := Percent(sentBytes, reportedSize);
      if progress > 255 {
        return false;
      }
      var _ := link.Send(EncodeMarker(progress as byte));
      return true;
    }

    /** start_receiving. */
    method StartReceiving() returns (ok: bool)
      modifies this
      ensures ok && Valid()
      ensures State() == Reset(old(State()))
    {
      currentFile := None;
      fileSize := 0;
      receivedBytes := 0;
      return true;
    }

    /** process_received_data. */
    method ProcessReceivedData(data: seq<byte>) returns (reply: Reply)
      requires Valid()
      modifies this
      ensures Valid()
      ensures State() == Process(old(State()), data).state
      ensures reply == Process(old(State()), data).reply
    {
      if currentFile.None? {
        if |data| >= 4 {
          var filenameLength := FromBigEndian(data[..4]);
          if |data| >= 4 + filenameLength + 8 {
            var filename := data[4..4 + filenameLength];
            fileSize := FromBigEndian(data[4 + filenameLength..4 + filenameLength + 8]);
            downloads := downloads[filename := []];
            currentFile := Some(filename);
            receivedBytes := 0;
            return Reply(data[4 + filenameLength + 8..], Some(FileInfo(filename, fileSize)));
          }
        }
      } else {
        var remainingData := data;
        if |data| >= 9 && data[..9] == ProgressTag {
          if |data| >= 10 {
            var progress := data[9] as nat;
            remainingData := data[10..];
            return Reply(remainingData, Some(FileProgress(progress)));
          }
        }
        if remainingData != [] {
          var name := currentFile.value;
          var writeSize := Min(|remainingData|, fileSize - receivedBytes);
          downloads := downloads[name := downloads[name] + remainingData[..writeSize]];
          receivedBytes := receivedBytes + writeSize;
          if fileSize == 0 {
            // (received_bytes / file_size) raises ZeroDivisionError
            assert downloads == old(downloads);
            return ZeroDivision;
          }
          var progress := Percent(receivedBytes, fileSize);
          if receivedBytes >= fileSize {
            currentFile := None;
            return Reply(remainingData[writeSize..], Some(FileProgress(100)));
          } else {
            return Reply(remainingData[writeSize..], Some(FileProgress(progress)));
          }
        }
      }
      return Reply(data, None);
    }
  }
}
