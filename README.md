# mpv IPC client: a Dafny model

This project models the core of a small Rust client for mpv's JSON IPC protocol over a Unix socket.

- **`models.dfy` (module `Models`, from `src/models.rs`).** The seek and load modes and their wire tokens. The closed set of commands and `Command::to_command_list`, which renders each command as a name token followed by its positional arguments. The request envelope `Request::new`, with the random correlation id taken as a parameter. The response envelope and `Response::success`.
- **`line_framing.dfy` (module `LineFraming`).** The reference meaning of the client's line-buffering read loop. `ScanChunk` and `Run` follow the loop read by read and line by line. `FirstDecodable` is the view of the whole byte stream, independent of how it is split into reads. The lemmas prove that the two agree, how many reads a response takes, and the loop's corner cases.
- **`mpv.dfy` (module `Mpv`, from `src/mpv.rs`).** The client as imperative code:
  - `get_lf_index` as an index loop over the 512-byte buffer;
  - `wait_for_response` as the nested read and scan loops over that buffer;
  - `check_size`, the `get_data_from_response!` macro, `write_command` and `write_command_without_response`;
  - the public operations and the fixed commands and property names they send.

  Everything outside the client that one call depends on is a `Peer` value:
  - the id the random generator draws;
  - the JSON encoder and decoder, as functions;
  - the result of the socket write;
  - the successive socket reads, as a sequence of chunks;
  - the error of the read after the last chunk, if there is one.

Four behaviours of the source shape the model:

- **Reads must be non-empty.** A read of 0 bytes at the end of the stream makes `buffer[size - 1]` (`src/mpv.rs:143`) underflow, so the loop does not survive it. Every chunk therefore holds 1 to 512 bytes (`ValidChunks`).
- **The empty text is decoded once.** When a line that fails to decode ends exactly at the end of a read, the loop goes on to decode the empty text before it reads again. The stream-level result `ChunkingIsInvisible` therefore assumes that the empty text does not decode, and `EmptyLineAtChunkEnd` shows the difference when it does.
- **Bytes are decoded as read.** The loop pushes each byte as a `char`, which is a Latin-1 view of the bytes. The decoder is therefore a function on byte sequences.
- **The request id is never checked.** The loop returns the first line that decodes as a response, whatever its id. Bytes that follow that line in the same read are dropped.

## Model

| member | source | states |
|---|---|---|
| Models.SeekModeToken | src/models.rs:18-31 | each seek mode renders to its fixed token, and the token parses back to the same mode |
| Models.SeekModeTokensDistinct | src/models.rs:20-27 | the six seek tokens are pairwise distinct: two modes have the same token iff they are the same mode |
| Models.LoadModeToken | src/models.rs:39-49 | each load mode renders to "replace", "append" or "append-play", and the token parses back to the same mode |
| Models.LoadModeTokensDistinct | src/models.rs:41-45 | the three load tokens are pairwise distinct (iff) |
| Models.ToCommandList | src/models.rs:62-91 | the rendered list has the variant's fixed length (3, 2 or 1), starts with the variant's name token, and parses back to the command |
| Models.NameTokensDistinct | src/models.rs:64-89 | two commands share a name token iff they are the same variant |
| Models.RenderArguments | src/models.rs:65-88 | arguments keep their positions unchanged: the seek position and mode token, the path and load-mode token, the exit code, the property name and the value passed through untouched |
| Models.RenderingInjective | src/models.rs:62-91 | two commands render to the same list iff they are equal |
| Models.NewRequest | src/models.rs:99-105 | the request's command is the rendered list of the command, whatever the id, and it carries the given id |
| Models.SuccessIgnoresData | src/models.rs:114-117 | success holds iff the status text is "success", and replacing the payload never changes it |
| LineFraming.FindLf | src/mpv.rs:165-173 | a found index lies between the start and the end of the scanned bytes |
| LineFraming.FindLfSpec | src/mpv.rs:165-173 | a found index holds LF and no LF lies between the start and it; nothing is found iff no LF lies from the start to the end |
| LineFraming.Run | src/mpv.rs:129-162 | a response is returned after between one and all of the remaining reads; otherwise the outcome is the failing read's error, or waiting when there is none |
| LineFraming.NoDecodeBeforeLf | src/mpv.rs:134-145 | a chunk holding no LF is appended to the pending line without any decode |
| LineFraming.ChunkWithoutLfIsCarried | src/mpv.rs:130-145 | a read holding no LF only extends the pending line, and the loop reads again |
| LineFraming.SkipUndecodableLineInChunk | src/mpv.rs:150-160 | a line that fails to decode is skipped and the next line in the same read is tried, with no new read; the first line that decodes is returned, whatever follows it |
| LineFraming.LaterReadsIgnored | src/mpv.rs:150-152 | once a response is returned, the reads after the ones it consumed and the later read error do not change the outcome |
| LineFraming.SplitLineAnywhere | src/mpv.rs:134-152 | a decodable line delivered whole takes one read, and split at any byte into two reads it gives the same response after two reads |
| LineFraming.ChunkingIsInvisible | src/mpv.rs:126-163 | if the empty text does not decode, the loop returns the decoded first LF-terminated line of the concatenated reads that decodes, after exactly the read that completes that line; if no line of the stream decodes, it reports the failing read or keeps waiting |
| LineFraming.SameStreamSameResponse | src/mpv.rs:126-163 | any two splittings of the same bytes into reads give the same response, or the same failure |
| LineFraming.EmptyLineAtChunkEnd | src/mpv.rs:143-156 | when the empty text decodes, an undecodable line ending exactly at the end of a read makes the loop return the empty text's response, although the stream holds no decodable line |
| Mpv.GetLfIndex | src/mpv.rs:165-173 | the index loop over the buffer returns the first LF at or after the start index and before the total size (FindLf, whose contract FindLfSpec states) |
| Mpv.ReadInto | src/mpv.rs:130 | the bytes of a read land at the front of the buffer, and their count is returned |
| Mpv.ScanBuffer | src/mpv.rs:131-161 | the inner loop over the bytes just read ends with the decoded line or the partial line to carry, as ScanChunk defines |
| Mpv.WaitForResponse | src/mpv.rs:126-163 | the nested read and scan loops over the 512-byte buffer compute ReadResponse, and so, when the empty text does not decode, return the first decodable line of the stream after exactly the read that completes it |
| Mpv.CheckSize | src/mpv.rs:97-103 | the check succeeds iff the written size is positive, and otherwise fails with WriteZero |
| Mpv.GetData | src/mpv.rs:10-21 | Ok(v) iff the response is a success and its payload is Some(v); "value is empty" for a success without a payload; "mpv says command failed" otherwise |
| Mpv.WriteCommand | src/mpv.rs:110-117 | a failing encode gives InvalidData, a failing or empty write gives its error, and otherwise the outcome is the read loop's result for the request built from the command and the drawn id |
| Mpv.WriteCommandWithoutResponse | src/mpv.rs:105-108 | the result is exactly the success flag of the first decoded response, and errors pass through |
| Mpv.LoadFile | src/mpv.rs:33-36 | sends ["loadfile", path, load-mode token] and reports the success flag |
| Mpv.LoadList | src/mpv.rs:38-41 | sends ["loadlist", path, load-mode token] and reports the success flag |
| Mpv.SeekTo | src/mpv.rs:43-46 | sends ["seek", position, seek-mode token] and reports the success flag |
| Mpv.QuitPlayer | src/mpv.rs:48-51 | sends ["quit", exit code] and reports the success flag |
| Mpv.StopPlayback | src/mpv.rs:53-56 | sends ["stop"] and reports the success flag |
| Mpv.Pause | src/mpv.rs:58-61 | sends ["set_property", "pause", true] and reports the success flag |
| Mpv.Resume | src/mpv.rs:63-66 | sends ["set_property", "pause", false] and reports the success flag |
| Mpv.ClearPlaylist | src/mpv.rs:68-71 | sends ["playlist-clear"] and reports the success flag |
| Mpv.GetIsPaused | src/mpv.rs:73-77 | sends ["get_property", "pause"] and returns the payload as GetData builds it |
| Mpv.GetPosition | src/mpv.rs:79-83 | sends ["get_property", "time-pos"] and returns the payload as GetData builds it |
| Mpv.GetRemaining | src/mpv.rs:85-89 | sends ["get_property", "time-remaining"] and returns the payload as GetData builds it |
| Mpv.GetDuration | src/mpv.rs:91-95 | sends ["get_property", "duration"] and returns the payload as GetData builds it |

## Left out

- `MpvClient::new` and `UnixStream::connect` (`src/mpv.rs:28-31`) are operating-system I/O. A call works on a given `Peer` instead.
- `MpvClient::write` (`src/mpv.rs:119-124`) is socket write and flush. Its result is the peer's `written` value, either a size or an error. That size is not tied to the length of the encoded request, and the trailing LF write is not modelled.
- `socket.read` returns the peer's chunks in order. A read error can happen only after the last chunk, as the peer's `readFailure`.
- Reads of 0 bytes are excluded by `ValidChunks`. On such a read the source indexes `buffer[size - 1]` with `size == 0` and panics.
- Blocking: when the chunks run out with no read error, the real call blocks in `read` forever. The model reports this as `Blocked` (`Waiting` at the client level): an endless stream cannot be a finite input.
- `json::encode` and `json::decode` from rustc_serialize are foreign code. They are the peer's `encode` and `decode` functions, left uninterpreted. JSON values other than strings, 64-bit integers and booleans are opaque tokens (`JOther`).
- `rand::thread_rng().gen::<u32>()` (`src/models.rs:103`) is randomness. The drawn id is the peer's `requestId`.
- The `f32` payloads of `get_position`, `get_remaining` and `get_duration` are floating point. The payload type is a type parameter.
- Log output by `info!` is left out.
- `src/lib.rs` holds only crate imports and re-exports.
- `src/bin/example.rs` is a demo program.
- The in-place growth of the Rust `String` line by `push` and `clear` is modelled as reassigning a byte sequence.
