/**
 * The socket client of the mpv IPC protocol (src/mpv.rs). The Unix socket is not
 * modelled as an object: what it does during one call is given as a `Peer`
 * value, from the correlation id the random generator would draw to the reads
 * the player's replies arrive in.
 */
module Mpv {
  import opened Wrappers
  import opened Models
  import opened LineFraming

  /** The `std::io::ErrorKind`s the client produces, plus those a Unix socket commonly reports. */
  datatype ErrorKind = InvalidData | WriteZero | Other | BrokenPipe | ConnectionReset | Interrupted | TimedOut

  datatype IoError = IoError(kind: ErrorKind, message: string)

  /** The outcome of a client call over a particular peer: the call returned a
      `std::io::Result`, or it is still blocked in a read when the peer has nothing more to send. */
  datatype Outcome<T> = Returned(result: Result<T, IoError>) | Waiting

  /** Everything outside the client that one call depends on. */
  datatype Peer<T> = Peer(
    requestId: uint32,                          // the value `rand::thread_rng().gen::<u32>()` draws
    encode: Request -> Option<seq<byte>>,       // `json::encode`; None when it fails
    written: Result<nat, IoError>,              // what `MpvClient::write` returns for the payload
    decode: seq<byte> -> Option<Response<T>>,   // `json::decode::<Response<T>>`; None when it fails
    chunks: seq<seq<byte>>,                     // what the successive `socket.read` calls deliver
    readFailure: Option<IoError>)               // the error of the read after them, if any
  {
    predicate Valid()
    {
      ValidChunks(chunks)
    }
  }

  const ConvertError := IoError(InvalidData, "Failed to convert to json")
  const WriteZeroError := IoError(WriteZero, "Failed to write command")
  const EmptyValueError := IoError(Other, "value is empty")
  const CommandFailedError := IoError(Other, "mpv says command failed")

  /** `get_lf_index`: the position of the first LF in buffer[startIndex..totalSize]. */
  method GetLfIndex(buffer: array<byte>, startIndex: nat, totalSize: nat) returns (r: Option<nat>)
    requires totalSize <= buffer.Length
    ensures r == FindLf(buffer[..totalSize], startIndex)
  {
    var index := startIndex;
    while index < totalSize
      invariant FindLf(buffer[..totalSize], index) == FindLf(buffer[..totalSize], startIndex)
      decreases totalSize - index
    {
      if buffer[index] == LF {
        r := Some(index);
        return;
      }
      index := index + 1;
    }
    r := None;
  }

  /** `socket.read(&mut buffer)` delivering `chunk`: its bytes land at the front of
      the buffer and the count of bytes read is returned. */
  method ReadInto(buffer: array<byte>, chunk: seq<byte>) returns (size: nat)
    requires |chunk| <= buffer.Length
    modifies buffer
    ensures size == |chunk| && buffer[..size] == chunk
  {
    size := |chunk|;
    forall i | 0 <= i < size {
      buffer[i] := chunk[i];
    }
  }

    /** The inner loop of `wait_for_response` over the `size` bytes just read, with
      `line` the partial line carried from earlier reads: append each stretch up to
      the next LF (or the end of the read) to the line and try to decode it. */
  method ScanBuffer<R>(decode: seq<byte> -> Option<R>, buffer: array<byte>, size: nat, line: seq<byte>)
    returns (scan: Scan<R>)
    requires 0 < size <= buffer.Length
    ensures scan == ScanChunk(decode, buffer[..size], 0, line)
  {
    ghost var chunk := buffer[..size];
    var current := line;
    var startIndex := 0;
    while true
      invariant startIndex <= size
      invariant ScanChunk(decode, chunk, startIndex, current) == ScanChunk(decode, chunk, 0, line)
      decreases size - startIndex
    {
      var lf := GetLfIndex(buffer, startIndex, size);
      var lineIndex := if lf.Some? then lf.value else size;
      assert buffer[startIndex..lineIndex] == chunk[startIndex..lineIndex];
      current := current + buffer[startIndex..lineIndex];
      if lineIndex == size && buffer[size - 1] != LF {
        return NeedMore(current);
      }
      var decoded := decode(current);
      if decoded.Some? {
        return Found(decoded.value);
      }
      if lineIndex == size {
        return NeedMore(current);
      }
      startIndex := lineIndex + 1;
      current := [];
    }
  }

/** `wait_for_response`: read into a 512-byte buffer, cut the bytes into lines at
      LF, and return the first line that decodes. */
  method WaitForResponse<R>(decode: seq<byte> -> Option<R>, chunks: seq<seq<byte>>, failure: Option<IoError>)
    returns (w: Wait<R, IoError>)
    requires ValidChunks(chunks)
    ensures w == ReadResponse(decode, chunks, failure)
    ensures decode([]) == None ==> MatchesStream(decode, chunks, failure, w)
  {
    var buffer := new byte[BufferSize](_ => 0);
    var line: seq<byte> := [];
    var next := 0;
    while next < |chunks|
      invariant next <= |chunks|
      invariant Run(decode, chunks, failure, next, line) == ReadResponse(decode, chunks, failure)
      decreases |chunks| - next
    {
      var size := ReadInto(buffer, chunks[next]);
      next := next + 1;
      var scan := ScanBuffer(decode, buffer, size, line);
      if scan.Found? {
        w := Received(scan.response, next);
        StreamView(decode, chunks, failure, w);
        return;
      }
      line := scan.line;
    }
    w := Silent(failure);
    StreamView(decode, chunks, failure, w);
  }

  /** The stream view of a result of the read loop (see ChunkingIsInvisible). */
  lemma StreamView<R>(decode: seq<byte> -> Option<R>, chunks: seq<seq<byte>>, failure: Option<IoError>,
                      w: Wait<R, IoError>)
    requires ValidChunks(chunks)
    requires w == ReadResponse(decode, chunks, failure)
    ensures decode([]) == None ==> MatchesStream(decode, chunks, failure, w)
  {
    if decode([]) == None {
      ChunkingIsInvisible(decode, chunks, failure);
    }
  }

  /** `check_size`: a write that wrote nothing is an error. */
  function CheckSize(size: nat): (r: Result<(), IoError>)
    ensures r.Ok? <==> size > 0
    ensures r.Err? ==> r.error.kind == WriteZero
  {
    if size > 0 then Ok(()) else Err(WriteZeroError)
  }

  /** `get_data_from_response!`: the payload of a successful response. */
  function GetData<T>(response: Response<T>): (r: Result<T, IoError>)
    ensures r.Ok? <==> response.Success() && response.data.Some?
    ensures r.Ok? ==> response.data == Some(r.value)
    ensures response.Success() && response.data.None? ==> r == Err(EmptyValueError)
    ensures !response.Success() ==> r == Err(CommandFailedError)
  {
    if response.Success() then
      match response.data
      case Some(value) => Ok(value)
      case None => Err(EmptyValueError)
    else Err(CommandFailedError)
  }

  /** What `write_command` does with a request over a peer: encode it, write it,
      check the write, and wait for the first line that decodes. */
  function Exchange<T>(request: Request, peer: Peer<T>): Outcome<Response<T>>
    requires peer.Valid()
  {
    match peer.encode(request)
    case None => Returned(Err(ConvertError))
    case Some(_) =>
      match peer.written
      case Err(e) => Returned(Err(e))
      case Ok(size) =>
        match CheckSize(size)
        case Err(e) => Returned(Err(e))
        case Ok(_) =>
          match ReadResponse(peer.decode, peer.chunks, peer.readFailure)
          case Received(response, _) => Returned(Ok(response))
          case ReadFailed(e) => Returned(Err(e))
          case Blocked => Waiting
  }

  /** The result of a command without a payload: the response's success flag. */
  function Acknowledge<T>(o: Outcome<Response<T>>): Outcome<bool>
  {
    match o
    case Returned(Ok(response)) => Returned(Ok(response.Success()))
    case Returned(Err(e)) => Returned(Err(e))
    case Waiting => Waiting
  }

  /** The result of a getter: the response's payload, see GetData. */
  function Extract<T>(o: Outcome<Response<T>>): Outcome<T>
  {
    match o
    case Returned(Ok(response)) => Returned(GetData(response))
    case Returned(Err(e)) => Returned(Err(e))
    case Waiting => Waiting
  }

  /** `write_command`. */
  method WriteCommand<T>(cmd: Command, peer: Peer<T>) returns (o: Outcome<Response<T>>)
    requires peer.Valid()
    ensures o == Exchange(NewRequest(cmd, peer.requestId), peer)
  {
    var request := NewRequest(cmd, peer.requestId);
    var content := peer.encode(request);
    if content.None? {
      return Returned(Err(ConvertError));
    }
    if peer.written.Err? {
      return Returned(Err(peer.written.error));
    }
    var checked := CheckSize(peer.written.value);
    if checked.Err? {
      return Returned(Err(checked.error));
    }
    var w := WaitForResponse(peer.decode, peer.chunks, peer.readFailure);
    match w
    case Received(response, _) => o := Returned(Ok(response));
    case ReadFailed(e) => o := Returned(Err(e));
    case Blocked => o := Waiting;
  }

  /** `write_command_without_response`: report only whether the player says "success". */
  method WriteCommandWithoutResponse(cmd: Command, peer: Peer<bool>) returns (o: Outcome<bool>)
    requires peer.Valid()
    ensures o == Acknowledge(Exchange(NewRequest(cmd, peer.requestId), peer))
  {
    var response := WriteCommand(cmd, peer);
    o := Acknowledge(response);
  }

  method LoadFile(peer: Peer<bool>, filePath: string, mode: LoadMode) returns (o: Outcome<bool>)
    requires peer.Valid()
    ensures o == Acknowledge(Exchange(Request([JString("loadfile"), JString(filePath), JString(LoadModeToken(mode))], peer.requestId), peer))
  {
    o := WriteCommandWithoutResponse(Command.LoadFile(filePath, mode), peer);
  }

  method LoadList(peer: Peer<bool>, listPath: string, mode: LoadMode) returns (o: Outcome<bool>)
    requires peer.Valid()
    ensures o == Acknowledge(Exchange(Request([JString("loadlist"), JString(listPath), JString(LoadModeToken(mode))], peer.requestId), peer))
  {
    o := WriteCommandWithoutResponse(Command.LoadList(listPath, mode), peer);
  }

  method SeekTo(peer: Peer<bool>, position: int64, mode: SeekMode) returns (o: Outcome<bool>)
    requires peer.Valid()
    ensures o == Acknowledge(Exchange(Request([JString("seek"), JI64(position), JString(SeekModeToken(mode))], peer.requestId), peer))
  {
    o := WriteCommandWithoutResponse(Command.Seek(position, mode), peer);
  }

  method QuitPlayer(peer: Peer<bool>, exitCode: int64) returns (o: Outcome<bool>)
    requires peer.Valid()
    ensures o == Acknowledge(Exchange(Request([JString("quit"), JI64(exitCode)], peer.requestId), peer))
  {
    o := WriteCommandWithoutResponse(Command.Quit(exitCode), peer);
  }

  method StopPlayback(peer: Peer<bool>) returns (o: Outcome<bool>)
    requires peer.Valid()
    ensures o == Acknowledge(Exchange(Request([JString("stop")], peer.requestId), peer))
  {
    o := WriteCommandWithoutResponse(Command.Stop, peer);
  }

  method Pause(peer: Peer<bool>) returns (o: Outcome<bool>)
    requires peer.Valid()
    ensures o == Acknowledge(Exchange(Request([JString("set_property"), JString("pause"), JBool(true)], peer.requestId), peer))
  {
    o := WriteCommandWithoutResponse(SetProperty("pause", JBool(true)), peer);
  }

  method Resume(peer: Peer<bool>) returns (o: Outcome<bool>)
    requires peer.Valid()
    ensures o == Acknowledge(Exchange(Request([JString("set_property"), JString("pause"), JBool(false)], peer.requestId), peer))
  {
    o := WriteCommandWithoutResponse(SetProperty("pause", JBool(false)), peer);
  }

  method ClearPlaylist(peer: Peer<bool>) returns (o: Outcome<bool>)
    requires peer.Valid()
    ensures o == Acknowledge(Exchange(Request([JString("playlist-clear")], peer.requestId), peer))
  {
    o := WriteCommandWithoutResponse(PlaylistClear, peer);
  }

  method GetIsPaused(peer: Peer<bool>) returns (o: Outcome<bool>)
    requires peer.Valid()
    ensures o == Extract(Exchange(Request([JString("get_property"), JString("pause")], peer.requestId), peer))
  {
    var response := WriteCommand(GetProperty("pause"), peer);
    o := Extract(response);
  }

  /** The three float getters; the f32 payload is the opaque type T. */
  method GetPosition<T>(peer: Peer<T>) returns (o: Outcome<T>)
    requires peer.Valid()
    ensures o == Extract(Exchange(Request([JString("get_property"), JString("time-pos")], peer.requestId), peer))
  {
    var response := WriteCommand(GetProperty("time-pos"), peer);
    o := Extract(response);
  }

  method GetRemaining<T>(peer: Peer<T>) returns (o: Outcome<T>)
    requires peer.Valid()
    ensures o == Extract(Exchange(Request([JString("get_property"), JString("time-remaining")], peer.requestId), peer))
  {
    var response := WriteCommand(GetProperty("time-remaining"), peer);
    o := Extract(response);
  }

  method GetDuration<T>(peer: Peer<T>) returns (o: Outcome<T>)
    requires peer.Valid()
    ensures o == Extract(Exchange(Request([JString("get_property"), JString("duration")], peer.requestId), peer))
  {
    var response := WriteCommand(GetProperty("duration"), peer);
    o := Extract(response);
  }
}
