/** The receiving half of FileTransfer as a function of its state: start_receiving and
    process_received_data. The state is the open file (None while a header is awaited),
    file_size, received_bytes and the Download directory as this engine wrote it. */
module Receiver {
  import opened Wire

  datatype Option<T> = None | Some(value: T)

  /** The dictionaries process_received_data returns beside the remaining bytes. */
  datatype Event =
    | FileInfo(filename: seq<byte>, filesize: nat)
    | FileProgress(progress: nat)

  /** What one call yields: the unconsumed bytes and at most one event, or the
      ZeroDivisionError raised for data that arrives for a 0-byte file. */
  datatype Reply =
    | Reply(rest: seq<byte>, event: Option<Event>)
    | ZeroDivision

  datatype RxState = RxState(
    currentFile: Option<seq<byte>>,
    fileSize: nat,
    receivedBytes: nat,
    downloads: map<seq<byte>, seq<byte>>)

  datatype Outcome = Outcome(state: RxState, reply: Reply)

  /** The open file holds exactly the bytes received for it; received_bytes never passes
      file_size, and reaches it while a file is open only for a 0-byte file. */
  predicate Inv(s: RxState)
  {
    s.receivedBytes <= s.fileSize && s.fileSize < Pow256(8) &&
    (s.currentFile.Some? ==>
      s.currentFile.value in s.downloads &&
      |s.downloads[s.currentFile.value]| == s.receivedBytes &&
      (s.receivedBytes == s.fileSize ==> s.fileSize == 0))
  }

  /** start_receiving: drops the open file, if any, and clears both counters. */
  function Reset(s: RxState): (r: RxState)
    ensures r.currentFile.None? && r.fileSize == 0 && r.receivedBytes == 0
    ensures r.downloads == s.downloads && Inv(r)
  {
    RxState(None, 0, 0, s.downloads)
  }

  /** process_received_data on `data`. */
  function Process(s: RxState, data: seq<byte>): (o: Outcome)
    requires Inv(s)
    ensures Inv(o.state)
    ensures o.reply.Reply? ==> |o.reply.rest| <= |data| && o.reply.rest == data[|data| - |o.reply.rest|..]
    ensures o.state.receivedBytes >= s.receivedBytes || o.state.currentFile.Some?
  {
    if s.currentFile.None? then
      (match ParseHeader(data)
       case Incomplete => Outcome(s, Reply(data, None))
       case Parsed(name, size, rest) =>
         assert data[|data| - |rest|..] == rest;
         Outcome(RxState(Some(name), size, 0, s.downloads[name := []]), Reply(rest, Some(FileInfo(name, size)))))
    else
      var name := s.currentFile.value;
      match ParseMarker(data)
      case Marker(percent, rest) => Outcome(s, Reply(rest, Some(FileProgress(percent as nat))))
      case NoMarker =>
        if data == [] then Outcome(s, Reply(data, None))
        // writing zero bytes changes nothing before 0 / 0 raises
        else if s.fileSize == 0 then Outcome(s, ZeroDivision)
        else
          var writeSize := Min(|data|, s.fileSize - s.receivedBytes);
          var received := s.receivedBytes + writeSize;
          var downloads := s.downloads[name := s.downloads[name] + data[..writeSize]];
          if received >= s.fileSize then
            Outcome(RxState(None, s.fileSize, received, downloads), Reply(data[writeSize..], Some(FileProgress(100))))
          else
            Outcome(RxState(Some(name), s.fileSize, received, downloads),
                    Reply(data[writeSize..], Some(FileProgress(Percent(received, s.fileSize)))))
  }

  predicate Awaiting(s: RxState)
  {
    Inv(s) && s.currentFile.None?
  }

  predicate Receiving(s: RxState)
  {
    Inv(s) && s.currentFile.Some?
  }

  /** start_receiving twice is start_receiving once. */
  lemma ResetIdempotent(s: RxState)
    ensures Reset(Reset(s)) == Reset(s)
  {
  }

  /** A complete header opens (and truncates) the named file, sets file_size to the size
      it carries, reports both, and hands back every byte after it. */
  lemma HeaderOpensFile(s: RxState, name: seq<byte>, size: nat, rest: seq<byte>)
    requires Awaiting(s) && Encodable(name, size)
    ensures Process(s, EncodeHeader(name, size) + rest)
         == Outcome(RxState(Some(name), size, 0, s.downloads[name := []]), Reply(rest, Some(FileInfo(name, size))))
  {
    HeaderRoundTrip(name, size, rest);
  }

  /** While a header is awaited, a call consumes nothing, reports nothing and changes
      nothing exactly when fewer than 4 bytes, or fewer than 4 + length + 8, are there. */
  lemma ShortHeaderWaits(s: RxState, data: seq<byte>)
    requires Awaiting(s)
    ensures Process(s, data) == Outcome(s, Reply(data, None))
        <==> |data| < 4 || |data| < 4 + FromBigEndian(data[..4]) + 8
  {
  }

  /** While receiving, a complete marker at the head of the data is reported and
      consumed; nothing is written and the counters stay. */
  lemma MarkerReported(s: RxState, percent: byte, rest: seq<byte>)
    requires Receiving(s)
    ensures Process(s, EncodeMarker(percent) + rest) == Outcome(s, Reply(rest, Some(FileProgress(percent as nat))))
  {
    MarkerRoundTrip(percent, rest);
  }

  /** The 9 tag bytes alone, without their percent byte, are written as file content. */
  lemma BareTagIsPayload(s: RxState)
    requires Receiving(s) && s.fileSize > 0
    ensures var name := s.currentFile.value;
      var writeSize := Min(9, s.fileSize - s.receivedBytes);
      Process(s, ProgressTag).state.downloads == s.downloads[name := s.downloads[name] + ProgressTag[..writeSize]]
  {
  }

  /** Outside a marker, a receiving call writes the next min(|data|, file_size -
      received_bytes) bytes, at least one, to the open file and hands back the rest. If
      that reaches file_size the file is closed and progress is 100; otherwise all of
      `data` was written and progress, below 100, is the percent received so far. */
  lemma WriteBound(s: RxState, data: seq<byte>)
    requires Receiving(s) && s.fileSize > 0 && data != [] && ParseMarker(data).NoMarker?
    ensures var o := Process(s, data);
      var name := s.currentFile.value;
      var writeSize := Min(|data|, s.fileSize - s.receivedBytes);
      1 <= writeSize &&
      o.state.downloads == s.downloads[name := s.downloads[name] + data[..writeSize]] &&
      o.state.fileSize == s.fileSize &&
      o.state.receivedBytes == s.receivedBytes + writeSize <= s.fileSize &&
      o.reply.Reply? && o.reply.rest == data[writeSize..] &&
      (if o.state.receivedBytes == s.fileSize
       then o.state.currentFile.None? && o.reply.event == Some(FileProgress(100))
       else o.state.currentFile == s.currentFile && o.reply.rest == [] &&
            o.reply.event == Some(FileProgress(Percent(o.state.receivedBytes, s.fileSize))) &&
            Percent(o.state.receivedBytes, s.fileSize) < 100)
  {
    var received := s.receivedBytes + Min(|data|, s.fileSize - s.receivedBytes);
    PercentBounds(received, s.fileSize);
  }

  /** Data that reaches file_size closes the file with progress 100 and hands back what
      lies past the end of the file; the next call parses a header again. */
  lemma CompletionAwaitsHeader(s: RxState, data: seq<byte>, name: seq<byte>, size: nat, rest: seq<byte>)
    requires Receiving(s) && s.fileSize > 0 && ParseMarker(data).NoMarker?
    requires |data| >= s.fileSize - s.receivedBytes && Encodable(name, size)
    ensures var o := Process(s, data);
      var file := s.currentFile.value;
      Awaiting(o.state) &&
      o.state.downloads[file] == s.downloads[file] + data[..s.fileSize - s.receivedBytes] &&
      o.reply == Reply(data[s.fileSize - s.receivedBytes..], Some(FileProgress(100))) &&
      Process(o.state, EncodeHeader(name, size) + rest)
        == Outcome(RxState(Some(name), size, 0, o.state.downloads[name := []]), Reply(rest, Some(FileInfo(name, size))))
  {
    WriteBound(s, data);
    HeaderOpensFile(Process(s, data).state, name, size, rest);
  }

  /** The marker the sender writes after the last chunk arrives once the file is closed,
      so it is taken for a header whose length field is "PROG" = 1347571527: until more
      than a gigabyte follows it in the same buffer, the call changes nothing and hands
      everything back. */
  lemma TrailingMarkerStalls(s: RxState, percent: byte, more: seq<byte>)
    requires Awaiting(s) && |more| < 1347571527 + 2
    ensures Process(s, EncodeMarker(percent) + more) == Outcome(s, Reply(EncodeMarker(percent) + more, None))
  {
    var data := EncodeMarker(percent) + more;
    var prog: seq<byte> := [0x50, 0x52, 0x4F, 0x47];
    assert data[..4] == prog;
    assert FromBigEndian(prog[..1]) == 0x50;
    assert prog[..3][..2] == prog[..2] && prog[..2][..1] == prog[..1];
    assert FromBigEndian(prog[..2]) == 0x5052;
    assert FromBigEndian(prog[..3]) == 0x50524F;
    assert FromBigEndian(prog) == 1347571527;
  }

  /** A 0-byte file is never closed: its header leaves it open, and every later
      non-marker data raises ZeroDivisionError and changes nothing. */
  lemma EmptyFileStaysOpen(s: RxState, name: seq<byte>, data: seq<byte>)
    requires Awaiting(s) && Encodable(name, 0) && data != [] && ParseMarker(data).NoMarker?
    ensures var afterHeader := Process(s, EncodeHeader(name, 0)).state;
      afterHeader.currentFile == Some(name) && Process(afterHeader, data) == Outcome(afterHeader, ZeroDivision)
  {
    HeaderOpensFile(s, name, 0, []);
    assert EncodeHeader(name, 0) + [] == EncodeHeader(name, 0);
  }

  /** How the stream is split into calls matters: a byte followed by a marker in one
      call writes the marker into the file, while the same bytes in two calls write one
      byte and report the marker. */
  lemma SplittingMatters(downloads: map<seq<byte>, seq<byte>>, name: seq<byte>)
    requires name in downloads && downloads[name] == []
    ensures var s := RxState(Some(name), 20, 0, downloads);
      var data := [0x78 as byte] + EncodeMarker(5);
      var whole := Process(s, data);
      var first := Process(s, [0x78]);
      var second := Process(first.state, EncodeMarker(5));
      whole.state.downloads[name] == data &&
      second.state.downloads[name] == [0x78] &&
      second.reply == Reply([], Some(FileProgress(5)))
  {
    var s := RxState(Some(name), 20, 0, downloads);
    var data := [0x78 as byte] + EncodeMarker(5);
    assert data[..9][0] != ProgressTag[0];
    assert [0x78 as byte][..1] == [0x78];
    var first := Process(s, [0x78]);
    MarkerReported(first.state, 5, []);
    assert EncodeMarker(5) + [] == EncodeMarker(5);
  }
}
