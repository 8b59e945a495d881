/**
  The message channel of the server (server/src/protocol.rs).

  Length-delimited framing and MessagePack (de)serialisation are library code,
  so frames arrive here as an already-segmented finite sequence of
  `Result<Bytes, IoError>` items and `decode`/`encode` are parameters.
  A stream is modelled by the finite sequence of items its parent would yield;
  a consumer reads it until the first `None`.
 */
module Protocol {
  import opened Wrappers

  newtype byte = x: int | 0 <= x < 0x100
  type Bytes = seq<byte>

  /** Inbound application messages (server/src/protocol/request.rs). */
  datatype Request = Greeting

  /** Outbound application messages; the variant is spelled as the server sends it. */
  datatype Response = Wellcome

  /** Causes reported by the collaborators; only their kind matters here. */
  datatype IoError = IoError(description: string)
  datatype DecodeError = DecodeError(description: string)
  datatype EncodeError = EncodeError(description: string)

  /** The three kinds of channel fault: framing/IO, malformed payload, unencodable value. */
  datatype CodecError =
    | Length(io: IoError)
    | MsgPackDecode(decode: DecodeError)
    | MsgPackEncode(encode: EncodeError)

  // ---------------------------------------------------------------------------
  // EnsureOkStream: forwards Ok items, ends the stream at the first Err
  // ---------------------------------------------------------------------------

  /**
    One `poll_next` of the adapter over a parent that will yield `parent`:
    the item the adapter yields and what the parent has left. The parent
    always advances by one item when it has one, also past an `Err`.
   */
  function PollNext<T, E>(parent: seq<Result<T, E>>): (step: (Option<T>, seq<Result<T, E>>))
    ensures parent == [] ==> step.1 == []
    ensures parent != [] ==> step.1 == parent[1..]
    ensures step.0.Some? <==> parent != [] && parent[0].Ok?
    ensures step.0.Some? ==> step.0.value == parent[0].value
  {
    if parent == [] then (None, [])
    else match parent[0]
      case Ok(item) => (Some(item), parent[1..])
      case Err(_) => (None, parent[1..])
  }

  /** The items a consumer receives from the adapter when it polls until `None`. */
  function Drain<T, E>(parent: seq<Result<T, E>>): (out: seq<T>)
    ensures |out| <= |parent|
    decreases |parent|
  {
    match PollNext(parent)
    case (None, _) => []
    case (Some(item), rest) => [item] + Drain(rest)
  }

  predicate AllOk<T, E>(s: seq<Result<T, E>>) {
    forall i :: 0 <= i < |s| ==> s[i].Ok?
  }

  /** Length of the longest prefix of `s` made of `Ok` items only. */
  function OkPrefixLength<T, E>(s: seq<Result<T, E>>): (k: nat)
    ensures k <= |s|
    ensures AllOk(s[..k])
    ensures k < |s| ==> s[k].Err?
  {
    if s == [] || s[0].Err? then 0
    else
      var k := 1 + OkPrefixLength(s[1..]);
      assert s[..k] == [s[0]] + s[1..][..k - 1];
      k
  }

  /** The values carried by a sequence of `Ok` items, in order. */
  function Unwrapped<T, E>(s: seq<Result<T, E>>): (r: seq<T>)
    requires AllOk(s)
    ensures |r| == |s|
    ensures forall i :: 0 <= i < |s| ==> r[i] == s[i].value
  {
    seq(|s|, i requires 0 <= i < |s| => s[i].value)
  }

  lemma UnwrappedCons<T, E>(x: Result<T, E>, s: seq<Result<T, E>>)
    requires x.Ok? && AllOk(s)
    ensures AllOk([x] + s)
    ensures Unwrapped([x] + s) == [x.value] + Unwrapped(s)
  {
    var xs := [x] + s;
    forall i | 0 <= i < |xs| ensures xs[i].Ok? {
      if i > 0 { assert xs[i] == s[i - 1]; }
    }
    var r := [x.value] + Unwrapped(s);
    forall i | 0 <= i < |xs| ensures Unwrapped(xs)[i] == r[i] {
      if i > 0 { assert xs[i] == s[i - 1]; }
    }
  }

  /** The adapter yields exactly the unwrapped longest all-`Ok` prefix of its parent. */
  lemma {:induction false} DrainIsOkPrefix<T, E>(s: seq<Result<T, E>>)
    ensures Drain(s) == Unwrapped(s[..OkPrefixLength(s)])
  {
    if s != [] && s[0].Ok? {
      DrainIsOkPrefix(s[1..]);
      var k := OkPrefixLength(s[1..]);
      assert s[..k + 1] == [s[0]] + s[1..][..k];
      UnwrappedCons(s[0], s[1..][..k]);
    }
  }

  /** Every yielded item is the value of the parent's item at the same position, before any `Err`. */
  lemma DrainItems<T, E>(s: seq<Result<T, E>>)
    ensures |Drain(s)| == OkPrefixLength(s)
    ensures forall j :: 0 <= j < |Drain(s)| ==> s[j].Ok? && Drain(s)[j] == s[j].value
  {
    DrainIsOkPrefix(s);
  }

  /** Without an `Err` the adapter yields every item, unwrapped, in order. */
  lemma DrainAllOk<T, E>(s: seq<Result<T, E>>)
    requires AllOk(s)
    ensures Drain(s) == Unwrapped(s)
    ensures |Drain(s)| == |s|
  {
    DrainIsOkPrefix(s);
    assert OkPrefixLength(s) == |s|;
    assert s[..|s|] == s;
  }

  /** Nothing after an `Err` is ever yielded: the stream ends there. */
  lemma {:induction false} DrainStopsAtErr<T, E>(pre: seq<Result<T, E>>, e: E, post: seq<Result<T, E>>)
    ensures Drain(pre + [Err(e)] + post) == Drain(pre)
  {
    if pre != [] {
      assert (pre + [Err(e)] + post)[1..] == pre[1..] + [Err(e)] + post;
      DrainStopsAtErr(pre[1..], e, post);
    }
  }

  /** Behind an all-`Ok` prefix the adapter continues with what follows. */
  lemma {:induction false} DrainAppend<T, E>(a: seq<Result<T, E>>, b: seq<Result<T, E>>)
    requires AllOk(a)
    ensures Drain(a + b) == Unwrapped(a) + Drain(b)
  {
    if a == [] {
      assert a + b == b;
    } else {
      assert (a + b)[0] == a[0];
      assert (a + b)[1..] == a[1..] + b;
      assert AllOk(a[1..]);
      DrainAppend(a[1..], b);
      UnwrappedCons(a[0], a[1..]);
      assert [a[0]] + a[1..] == a;
    }
  }

  // ---------------------------------------------------------------------------
  // size_hint of the adapter
  // ---------------------------------------------------------------------------

  /** A stream's estimate of its remaining length: a lower bound and an optional upper bound. */
  datatype SizeHint = SizeHint(lower: nat, upper: Option<nat>)

  predicate Bounds(h: SizeHint, remaining: nat) {
    h.lower <= remaining && (h.upper.Some? ==> remaining <= h.upper.value)
  }

  /** The hint as the adapter reports it: the parent's hint, forwarded unchanged. */
  function ForwardedSizeHint(parentHint: SizeHint): (h: SizeHint)
    ensures h == parentHint
  {
    parentHint
  }

  /** The hint the adapter can vouch for: any `Err` may cut the stream, so no lower bound. */
  function AdapterSizeHint(parentHint: SizeHint): (h: SizeHint)
    ensures h.lower == 0 && h.upper == parentHint.upper
  {
    SizeHint(0, parentHint.upper)
  }

  /** The forwarded upper bound is sound: the adapter never yields more than its parent. */
  lemma ForwardedUpperSound<T, E>(s: seq<Result<T, E>>, h: SizeHint)
    requires Bounds(h, |s|)
    ensures h.upper.Some? ==> |Drain(s)| <= ForwardedSizeHint(h).upper.value
  {
  }

  /** The forwarded lower bound is not: a parent of one `Err` item has exactly one item left, the adapter none. */
  lemma ForwardedLowerUnsound<T, E>(e: E)
    ensures var parent: seq<Result<T, E>> := [Err(e)];
      Bounds(SizeHint(1, Some(1)), |parent|) && !Bounds(ForwardedSizeHint(SizeHint(1, Some(1))), |Drain(parent)|)
  {
    assert PollNext<T, E>([Err(e)]).0 == None;
  }

  /** Whenever the parent's hint is right about the parent, the adapter's hint is right about the adapter. */
  lemma AdapterSizeHintSound<T, E>(s: seq<Result<T, E>>, h: SizeHint)
    requires Bounds(h, |s|)
    ensures Bounds(AdapterSizeHint(h), |Drain(s)|)
  {
  }

  // ---------------------------------------------------------------------------
  // Inbound path of make_codec: EnsureOkStream, then filter_map(decode)
  // ---------------------------------------------------------------------------

  /** The decoding closure: a frame that fails to decode yields no request. */
  function DecodeFrame(decode: Bytes -> Result<Request, DecodeError>, frame: Bytes): (r: Option<Request>)
    ensures r.Some? <==> decode(frame).Ok?
    ensures r.Some? ==> decode(frame) == Ok(r.value)
  {
    decode(frame).ToOption()
  }

  /** `filter_map` with the decoding closure: the requests of the frames that decode, in order. */
  function FilterDecode(decode: Bytes -> Result<Request, DecodeError>, frames: seq<Bytes>): (requests: seq<Request>)
    ensures |requests| <= |frames|
  {
    if frames == [] then []
    else match DecodeFrame(decode, frames[0])
      case Some(request) => [request] + FilterDecode(decode, frames[1..])
      case None => FilterDecode(decode, frames[1..])
  }

  /** The request stream of `make_codec` over the frames the transport yields. */
  function Inbound(decode: Bytes -> Result<Request, DecodeError>, frames: seq<Result<Bytes, IoError>>): (requests: seq<Request>)
    ensures |requests| <= |frames|
  {
    FilterDecode(decode, Drain(frames))
  }

  /** Positions `i >= from` of the frames that decode, in increasing order. */
  function DecodedFrom(decode: Bytes -> Result<Request, DecodeError>, frames: seq<Bytes>, from: nat): (idx: seq<nat>)
    requires from <= |frames|
    ensures forall j :: 0 <= j < |idx| ==> from <= idx[j] < |frames|
    decreases |frames| - from
  {
    if from == |frames| then []
    else (if decode(frames[from]).Ok? then [from] else []) + DecodedFrom(decode, frames, from + 1)
  }

  /**
    `idx` says where each request came from: `requests[j]` is the decode of
    frame `idx[j]`, the positions increase, and they are exactly the positions
    below `limit` whose frame decodes.
   */
  ghost predicate Origins(decode: Bytes -> Result<Request, DecodeError>, frames: seq<Bytes>, limit: nat,
                          requests: seq<Request>, idx: seq<nat>)
    requires limit <= |frames|
  {
    && |idx| == |requests|
    && (forall j, k :: 0 <= j < k < |idx| ==> idx[j] < idx[k])
    && (forall j :: 0 <= j < |idx| ==> idx[j] < limit && decode(frames[idx[j]]) == Ok(requests[j]))
    && (forall i :: 0 <= i < limit ==> (decode(frames[i]).Ok? <==> i in idx))
  }

  lemma {:induction false} FilterDecodeOrigins(decode: Bytes -> Result<Request, DecodeError>, frames: seq<Bytes>, from: nat)
    requires from <= |frames|
    ensures var requests, idx := FilterDecode(decode, frames[from..]), DecodedFrom(decode, frames, from);
      && |idx| == |requests|
      && (forall j, k :: 0 <= j < k < |idx| ==> idx[j] < idx[k])
      && (forall j :: 0 <= j < |idx| ==> decode(frames[idx[j]]) == Ok(requests[j]))
      && (forall i :: from <= i < |frames| ==> (decode(frames[i]).Ok? <==> i in idx))
    decreases |frames| - from
  {
    if from < |frames| {
      FilterDecodeOrigins(decode, frames, from + 1);
      var tail := DecodedFrom(decode, frames, from + 1);
      var rest := FilterDecode(decode, frames[from + 1..]);
      assert frames[from..][0] == frames[from];
      assert frames[from..][1..] == frames[from + 1..];
      if decode(frames[from]).Ok? {
        assert DecodedFrom(decode, frames, from) == [from] + tail;
        assert FilterDecode(decode, frames[from..]) == [decode(frames[from]).value] + rest;
      } else {
        assert DecodedFrom(decode, frames, from) == tail;
        assert FilterDecode(decode, frames[from..]) == rest;
      }
    }
  }

  /** Each request comes from exactly one frame before the first framing error, in frame order, and every such frame that decodes yields one. */
  lemma InboundOrigins(decode: Bytes -> Result<Request, DecodeError>, frames: seq<Result<Bytes, IoError>>)
    ensures OkPrefixLength(frames) <= |frames|
    ensures forall i :: 0 <= i < OkPrefixLength(frames) ==> frames[i].Ok?
    ensures exists idx :: Origins(decode, Unwrapped(frames[..OkPrefixLength(frames)]), OkPrefixLength(frames),
                                  Inbound(decode, frames), idx)
  {
    var k := OkPrefixLength(frames);
    forall i | 0 <= i < k ensures frames[i].Ok? {
      assert frames[..k][i] == frames[i];
    }
    var good := Unwrapped(frames[..k]);
    DrainIsOkPrefix(frames);
    assert Inbound(decode, frames) == FilterDecode(decode, good);
    assert good[0..] == good;
    FilterDecodeOrigins(decode, good, 0);
    assert Origins(decode, good, k, Inbound(decode, frames), DecodedFrom(decode, good, 0));
  }

  /** Some request arrives exactly when some frame before the first framing error decodes. */
  lemma InboundNonEmpty(decode: Bytes -> Result<Request, DecodeError>, frames: seq<Result<Bytes, IoError>>)
    ensures Inbound(decode, frames) != [] <==>
      exists i :: 0 <= i < OkPrefixLength(frames) && frames[i].Ok? && decode(frames[i].value).Ok?
  {
    InboundOrigins(decode, frames);
    var good := Unwrapped(frames[..OkPrefixLength(frames)]);
    var idx :| Origins(decode, good, OkPrefixLength(frames), Inbound(decode, frames), idx);
    if Inbound(decode, frames) != [] {
      assert decode(good[idx[0]]).Ok?;
    }
    if i :| 0 <= i < OkPrefixLength(frames) && frames[i].Ok? && decode(frames[i].value).Ok? {
      assert decode(good[i]).Ok?;
    }
  }

  /** A frame that fails to decode is dropped and the stream carries on with the next frame. */
  lemma DecodeFailureSkipsFrame(decode: Bytes -> Result<Request, DecodeError>, frame: Bytes, rest: seq<Result<Bytes, IoError>>)
    requires decode(frame).Err?
    ensures Inbound(decode, [Ok(frame)] + rest) == Inbound(decode, rest)
  {
    assert ([Ok(frame)] + rest)[1..] == rest;
  }

  /** A frame that decodes yields its request ahead of the rest of the stream. */
  lemma DecodedFrameYields(decode: Bytes -> Result<Request, DecodeError>, frame: Bytes, rest: seq<Result<Bytes, IoError>>)
    requires decode(frame).Ok?
    ensures Inbound(decode, [Ok(frame)] + rest) == [decode(frame).value] + Inbound(decode, rest)
  {
    assert ([Ok(frame)] + rest)[1..] == rest;
  }

  /** A framing error ends the request stream: no frame after it is ever decoded. */
  lemma FramingErrorEndsInbound(decode: Bytes -> Result<Request, DecodeError>, pre: seq<Result<Bytes, IoError>>,
                                e: IoError, post: seq<Result<Bytes, IoError>>)
    ensures Inbound(decode, pre + [Err(e)] + post) == Inbound(decode, pre)
  {
    DrainStopsAtErr(pre, e, post);
  }

  lemma {:induction false} FilterDecodeAppend(decode: Bytes -> Result<Request, DecodeError>, a: seq<Bytes>, b: seq<Bytes>)
    ensures FilterDecode(decode, a + b) == FilterDecode(decode, a) + FilterDecode(decode, b)
  {
    if a == [] {
      assert a + b == b;
    } else {
      assert (a + b)[0] == a[0];
      assert (a + b)[1..] == a[1..] + b;
      FilterDecodeAppend(decode, a[1..], b);
    }
  }

  /**
    Undecodable frames never desynchronise the stream: behind frames that
    were all read without a framing error, the requests of the frames that
    follow still arrive, whatever the earlier frames held.
   */
  lemma InboundAppend(decode: Bytes -> Result<Request, DecodeError>, a: seq<Result<Bytes, IoError>>, b: seq<Result<Bytes, IoError>>)
    requires AllOk(a)
    ensures Inbound(decode, a + b) == Inbound(decode, a) + Inbound(decode, b)
  {
    DrainAppend(a, b);
    DrainAllOk(a);
    FilterDecodeAppend(decode, Unwrapped(a), Drain(b));
  }

  // ---------------------------------------------------------------------------
  // Outbound path of make_codec: encode_response, then the framed sink
  // ---------------------------------------------------------------------------

  /** `encode_response`: the named MessagePack encoding, an encoder failure becoming `MsgPackEncode`. */
  function EncodeResponse(encode: Response -> Result<Bytes, EncodeError>, response: Response): (r: Result<Bytes, CodecError>)
    ensures r.Ok? <==> encode(response).Ok?
    ensures r.Ok? ==> r.value == encode(response).value
    ensures r.Err? ==> r == Err(MsgPackEncode(encode(response).error))
  {
    match encode(response)
    case Ok(data) => Ok(data)
    case Err(err) => Err(MsgPackEncode(err))
  }

  /** `sink_map_err`: a transport fault becomes `Length`. */
  function SinkMapErr(err: IoError): (e: CodecError)
    ensures e.Length? && e.io == err
  {
    Length(err)
  }

  /** The outcome of one send and the frames the transport has accepted afterwards. */
  datatype Sent = Sent(result: Result<(), CodecError>, written: seq<Bytes>)

  /**
    One `send` of a response on the sink of `make_codec`. `written` holds the
    frames the transport has accepted so far; `fault` is the transport's
    outcome for this frame. The frame reaches the transport only if encoding
    succeeds.
   */
  function SendResponse(encode: Response -> Result<Bytes, EncodeError>, written: seq<Bytes>,
                        fault: Option<IoError>, response: Response): (s: Sent)
    ensures s.result.Ok? ==> encode(response).Ok? && s.written == written + [encode(response).value]
    ensures s.result.Err? ==> s.written == written
    ensures s.result.Err? ==> !s.result.error.MsgPackDecode?
  {
    match EncodeResponse(encode, response)
    case Err(err) => Sent(Err(err), written)
    case Ok(frame) =>
      match fault
      case Some(io) => Sent(Err(SinkMapErr(io)), written)
      case None => Sent(Ok(()), written + [frame])
  }

  /** An encoder failure is reported as `MsgPackEncode` and nothing is written. */
  lemma EncodeFailureWritesNothing(encode: Response -> Result<Bytes, EncodeError>, written: seq<Bytes>,
                                   fault: Option<IoError>, response: Response)
    requires encode(response).Err?
    ensures SendResponse(encode, written, fault, response) == Sent(Err(MsgPackEncode(encode(response).error)), written)
  {
  }

  /** With a successful encoding, a transport fault is reported as `Length`; otherwise the frame is appended. */
  lemma EncodedFrameReachesTransport(encode: Response -> Result<Bytes, EncodeError>, written: seq<Bytes>,
                                     fault: Option<IoError>, response: Response)
    requires encode(response).Ok?
    ensures fault.Some? ==> SendResponse(encode, written, fault, response) == Sent(Err(Length(fault.value)), written)
    ensures fault.None? ==> SendResponse(encode, written, fault, response) == Sent(Ok(()), written + [encode(response).value])
  {
  }

  /** A send succeeds exactly when both the encoder and the transport do. */
  lemma SendSucceedsIff(encode: Response -> Result<Bytes, EncodeError>, written: seq<Bytes>,
                        fault: Option<IoError>, response: Response)
    ensures SendResponse(encode, written, fault, response).result.Ok? <==> encode(response).Ok? && fault.None?
  {
  }
}
