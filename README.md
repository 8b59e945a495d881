# Typed message channel of the dwarf-miners server, in Dafny

This project models the server's message channel and its connection handshake.

The channel (`make_codec` in `server/src/protocol.rs`) turns a framed byte
transport into a stream of `Request` values and a sink of `Response` values.

- **Inbound.** Frames pass through the fault-isolating adapter `EnsureOkStream`. It forwards every `Ok` frame and ends the stream at the first framing error. Each frame is then decoded. A frame that fails to decode is dropped and the stream carries on.
- **Outbound.** A response is first encoded. An encoder failure is reported as `CodecError::MsgPackEncode`. Only a successfully encoded frame is handed to the transport, and a transport fault is reported as `CodecError::Length`.

`CodecError` is a datatype with exactly three cases: `Length` for framing and IO faults, `MsgPackDecode` for malformed payloads, and `MsgPackEncode` for values that cannot be encoded. The decode case is declared but never produced: the inbound path drops undecodable frames, and `SendResponse` proves that a send never fails with it.

The handshake (`handle_client` in `server/src/main.rs`) reads one request.

- An ended stream gives `ConnectionClosed`.
- A `Greeting` is answered with exactly one `Wellcome`, and the result of that send becomes the result of the handshake.
- Any other request gives `UnexpectedMessage` carrying that request. `Request` has only the variant `Greeting`, so this branch cannot happen today.

Files:

- `wrappers.dfy`: module `Wrappers`, with `Option` and `Result`.
- `protocol.dfy`: module `Protocol`, the logic of `protocol.rs` (`EnsureOkStream` and the inbound and outbound composition of `make_codec`), as functions and lemmas over finite sequences.
- `server.dfy`: module `Server`, `handle_client` from `main.rs`. It is written as a method over a `Connection` object, which holds the remaining requests and a log of every response handed to `send`, whether or not the send succeeds. The method is tied to the pure function `Handshake`.

How a stream is modelled: the finite sequence of items its parent would yield. `PollNext` is one `poll_next`. `Drain` is what a consumer receives when it polls until the first `None`. The reference definition is `Unwrapped(s[..OkPrefixLength(s)])`: the values of the longest all-`Ok` prefix.

The collaborators are parameters.

- `decode: Bytes -> Result<Request, DecodeError>` stands for MessagePack decoding.
- `encode: Response -> Result<Bytes, EncodeError>` stands for named MessagePack encoding.
- `fault: Option<IoError>` is the transport's outcome for one written frame.
- In `Connection`, `sinkFault` is the sink's outcome for a send.

## Model

| member | source | states |
|---|---|---|
| Wrappers.Result.ToOption | server/src/protocol.rs:75-77 | `.ok()`: a value exactly for `Ok`, and it is the `Ok` value |
| Protocol.PollNext | server/src/protocol.rs:42-54 | one poll yields an item exactly when the parent's next item is `Ok`, and yields that item's value; the parent always advances by one item, also past an `Err`, and an ended parent stays ended |
| Protocol.Drain | server/src/protocol.rs:30-54 | the adapter never yields more items than its parent |
| Protocol.OkPrefixLength | server/src/protocol.rs:30-31 | the longest all-`Ok` prefix: every item before it is `Ok`, and the item at it (if any) is `Err` |
| Protocol.Unwrapped | server/src/protocol.rs:45 | unwrapping keeps the length and takes each item's value at the same position |
| Protocol.DrainIsOkPrefix | server/src/protocol.rs:30-51 | the adapter's output equals the unwrapped longest all-`Ok` prefix of its input |
| Protocol.DrainItems | server/src/protocol.rs:44-51 | the output is exactly as long as that prefix, and item j is the value of input item j, in order |
| Protocol.DrainAllOk | server/src/protocol.rs:45-50 | without an `Err`, every input item is output, unwrapped, and the lengths are equal |
| Protocol.DrainStopsAtErr | server/src/protocol.rs:46-49 | nothing after an `Err` is ever output: `Drain(pre + [Err(e)] + post) == Drain(pre)` for every `post` |
| Protocol.DrainAppend | server/src/protocol.rs:44-45 | behind an all-`Ok` prefix, the output is that prefix unwrapped, followed by the output of the rest |
| Protocol.ForwardedSizeHint | server/src/protocol.rs:56-58 | the adapter reports its parent's hint unchanged, lower and upper bound alike |
| Protocol.AdapterSizeHint | server/src/protocol.rs:56-58 | the corrected hint: lower bound 0, upper bound the parent's |
| Protocol.ForwardedUpperSound | server/src/protocol.rs:56-58 | the forwarded upper bound holds for the adapter whenever it holds for the parent |
| Protocol.ForwardedLowerUnsound | server/src/protocol.rs:56-58 | the forwarded lower bound can be wrong: for a parent of one `Err` item with hint (1, Some(1)), the hint holds for the parent but not for the adapter |
| Protocol.AdapterSizeHintSound | server/src/protocol.rs:56-58 | the hint (0, parent's upper bound) holds for the adapter whenever the parent's hint holds for the parent |
| Protocol.DecodeFrame | server/src/protocol.rs:74-77 | the decoding closure yields a request exactly when decoding succeeds, and only the decoded request |
| Protocol.FilterDecode | server/src/protocol.rs:74-78 | `filter_map` never yields more requests than there are frames |
| Protocol.Inbound | server/src/protocol.rs:72-78 | the request stream never holds more requests than the transport yields items |
| Protocol.FilterDecodeOrigins | server/src/protocol.rs:74-78 | each request is the decode of one frame; the frame positions strictly increase; a frame yields a request exactly when it decodes |
| Protocol.InboundOrigins | server/src/protocol.rs:72-78 | there is a strictly increasing map from requests to frames before the first framing error; each request is the decode of its frame; the frames in that prefix that decode are exactly the frames hit by the map |
| Protocol.InboundNonEmpty | server/src/protocol.rs:72-78 | some request arrives exactly when some frame before the first framing error decodes |
| Protocol.DecodeFailureSkipsFrame | server/src/protocol.rs:74-77 | an undecodable frame is dropped and the stream continues with the following frames |
| Protocol.DecodedFrameYields | server/src/protocol.rs:74-77 | a frame that decodes yields its request ahead of the requests of the following frames |
| Protocol.FramingErrorEndsInbound | server/src/protocol.rs:72-78 | a framing error ends the request stream: no frame after it is ever decoded |
| Protocol.FilterDecodeAppend | server/src/protocol.rs:74-78 | `filter_map` over two chunks of frames is the concatenation of its results on each chunk |
| Protocol.InboundAppend | server/src/protocol.rs:72-78 | frames read without a framing error never desynchronise the stream: the requests of the frames behind them still arrive, appended in order |
| Protocol.EncodeResponse | server/src/protocol.rs:80-86 | encoding succeeds exactly when the encoder does, with its bytes; an encoder failure becomes `MsgPackEncode` carrying the cause |
| Protocol.SinkMapErr | server/src/protocol.rs:88-92 | a transport fault becomes `CodecError::Length` carrying the cause |
| Protocol.SendResponse | server/src/protocol.rs:80-93 | a successful send appends exactly the encoded frame to what the transport has accepted; a failed send appends nothing; a send never fails with `MsgPackDecode` |
| Protocol.EncodeFailureWritesNothing | server/src/protocol.rs:80-85 | when encoding fails, the send returns `MsgPackEncode` with the encoder's error and nothing reaches the transport, whatever the transport would do |
| Protocol.EncodedFrameReachesTransport | server/src/protocol.rs:85-93 | after a successful encoding, a transport fault is returned as `Length` with nothing appended; otherwise the encoded frame is appended and the send succeeds |
| Protocol.SendSucceedsIff | server/src/protocol.rs:80-93 | a send succeeds exactly when both the encoder and the transport succeed |
| Server.Handshake | server/src/main.rs:22-38 | exactly one request is read when there is one, none otherwise; at most one reply is sent, and it is `Wellcome`; a first request other than `Greeting` gives `UnexpectedMessage` carrying it, and nothing is sent |
| Server.ClosedIffEmpty | server/src/main.rs:29 | the result is `ConnectionClosed` exactly when the stream is empty; then nothing is sent or read |
| Server.WellcomeIffGreeting | server/src/main.rs:30-37 | exactly one `Wellcome` is sent exactly when the first request is `Greeting`; otherwise nothing is sent |
| Server.GreetingResultIsSendResult | server/src/main.rs:37 | after a `Greeting`, the handshake's result is the send's result: success, or the sink's error passed through |
| Server.SuccessIff | server/src/main.rs:29-37 | the handshake succeeds exactly when the first request is `Greeting` and the send succeeds |
| Server.NoUnexpectedMessage | server/src/main.rs:28-34 | with the one-variant `Request`, the handshake never returns `UnexpectedMessage` |
| Server.ReplyIffDecodableFrame | server/src/main.rs:57-58 | over the channel of `make_codec`, the server replies exactly when some frame before the first framing error decodes, however many undecodable frames come before it |
| Server.Connection.constructor | server/src/main.rs:22-24 | a connection starts with the given request stream and sink, and nothing has been sent yet |
| Server.Connection.Next | server/src/main.rs:29 | `stream.next()` returns the first remaining request and removes it, or `None` on an ended stream |
| Server.Connection.Send | server/src/main.rs:37 | `sink.send` appends the response to the sink's log and returns the sink's outcome |
| Server.HandleClient | server/src/main.rs:22-38 | its result, the responses it appends and the requests it reads are exactly those of `Handshake`, so it reads at most one request |

## Findings

| source | as written | input that shows it | evidently intended | confidence | as-written member | corrected member |
|---|---|---|---|---|---|---|
| server/src/protocol.rs:56-58 | `size_hint` returns the parent's hint unchanged, including its lower bound | a parent with one `Err` item left that reports the hint (1, Some(1)): the adapter yields nothing, which is below the lower bound | keep the parent's upper bound and report lower bound 0, because any `Err` can end the stream early | low, not executed; the parent inside `make_codec` is a split framed stream, which reports the default hint (0, None), so no wrong hint arises there | Protocol.ForwardedLowerUnsound | Protocol.AdapterSizeHintSound |

## Left out

- Length-delimited framing (`Framed`, `LengthDelimitedCodec`) is library code. The model starts from the already-segmented sequence of `Result<Bytes, IoError>` items. It does not model the length-prefix byte layout or the maximum frame length.
- MessagePack encoding and decoding (`rmp_serde`) are foreign calls, modelled as the parameters `encode` and `decode`. No round-trip law is claimed: it would be a property of `rmp_serde`, and nothing in `protocol.rs` constrains what `to_vec_named` and `from_read_ref` compute.
- The `tracing` calls `error!` and `warn!` are diagnostics only and are left out.
- Asynchronous polling is left out: `Pin`, `Context`, `Poll::Pending` and wakers. A stream is a finite sequence, and `poll_next` is one step over it.
- `EnsureOkStream` is not fused. `PollNext` shows that an `Err` advances the parent past it, so a consumer polling again after the `None` would receive the items behind the error. `Drain` stops at the first `None`, like every consumer in this code.
- SendResponse: a sink built with `with` can also report a transport fault while getting ready, before encoding starts. It can also fail only at flush time. The model folds every transport outcome of one send into the single `fault` after encoding succeeds. It records no partially written frame on a fault.
- Server.Connection.Send: the sink gives the same outcome to every send. `handle_client` sends at most once, so nothing depends on this.
- `serve` and `main` are left out: TCP bind and accept, logging setup, and the `ClientMissing` path are I/O. `ServerError::ClientMissing` is declared but never produced. `Server.ReplyIffDecodableFrame` states only the composition of `make_codec` with `handle_client` that `serve` performs.
- server/src/protocol/response.rs is not part of this model. The model declares only `Wellcome`, the one variant the server sends (server/src/main.rs:37).
