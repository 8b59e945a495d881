/**
  The connection handshake of the server (server/src/main.rs): the first
  request must be a `Greeting`, which is answered with exactly one `Wellcome`.
  Binding the listener, accepting the client and setting up logging are I/O
  and not part of this model.
 */
module Server {
  import opened Wrappers
  import opened Protocol

  datatype ServerError =
    | ClientMissing
    | UnexpectedMessage(msg: Request)
    | ConnectionClosed

  /** The error `handle_client` returns: its own, or the sink's error passed through. */
  datatype HandleError<E> = Refused(cause: ServerError) | Sink(failure: E)

  /** What one handshake does: its result, the responses it hands to the sink, the requests it reads. */
  datatype Outcome<E> = Outcome(result: Result<(), HandleError<E>>, replies: seq<Response>, consumed: nat)

  /**
    The handshake over a request stream that will yield `inbound` and a sink
    whose send fails with `sinkFault` when that is present.
   */
  function Handshake<E>(inbound: seq<Request>, sinkFault: Option<E>): (o: Outcome<E>)
    ensures o.consumed == if inbound == [] then 0 else 1
    ensures o.replies == [] || o.replies == [Wellcome]
    ensures inbound != [] && !inbound[0].Greeting? ==>
      o.result == Err(Refused(UnexpectedMessage(inbound[0]))) && o.replies == []
  {
    if inbound == [] then Outcome(Err(Refused(ConnectionClosed)), [], 0)
    else
      var msg := inbound[0];
      var sent := match sinkFault case None => Ok(()) case Some(e) => Err(Sink(e));
      var result := if msg.Greeting? then sent else Err(Refused(UnexpectedMessage(msg)));
      var replies := if msg.Greeting? then [Wellcome] else [];
      Outcome(result, replies, 1)
  }

  /** An empty stream, and only an empty stream, ends the handshake with `ConnectionClosed`, and nothing is sent. */
  lemma ClosedIffEmpty<E>(inbound: seq<Request>, sinkFault: Option<E>)
    ensures Handshake(inbound, sinkFault).result == Err(Refused(ConnectionClosed)) <==> inbound == []
    ensures inbound == [] ==> Handshake(inbound, sinkFault).replies == [] && Handshake(inbound, sinkFault).consumed == 0
  {
  }

  /** Exactly one `Wellcome` is sent exactly when the first request is a `Greeting`. */
  lemma WellcomeIffGreeting<E>(inbound: seq<Request>, sinkFault: Option<E>)
    ensures Handshake(inbound, sinkFault).replies == [Wellcome] <==> inbound != [] && inbound[0] == Greeting
    ensures Handshake(inbound, sinkFault).replies != [Wellcome] ==> Handshake(inbound, sinkFault).replies == []
  {
  }

  /** After a `Greeting` the handshake's result is the result of the send: success, or the sink's error. */
  lemma GreetingResultIsSendResult<E>(inbound: seq<Request>, sinkFault: Option<E>)
    requires inbound != [] && inbound[0] == Greeting
    ensures Handshake(inbound, sinkFault).result == if sinkFault.None? then Ok(()) else Err(Sink(sinkFault.value))
  {
  }

  /** The handshake succeeds exactly when a `Greeting` arrives first and the send goes through. */
  lemma SuccessIff<E>(inbound: seq<Request>, sinkFault: Option<E>)
    ensures Handshake(inbound, sinkFault).result.Ok? <==> inbound != [] && inbound[0] == Greeting && sinkFault.None?
  {
  }

  /**
    `Request` has the single variant `Greeting`, so the unexpected-message
    branch is dead: every non-empty stream is answered.
   */
  lemma NoUnexpectedMessage<E>(inbound: seq<Request>, sinkFault: Option<E>)
    ensures !(Handshake(inbound, sinkFault).result.Err? && Handshake(inbound, sinkFault).result.error.Refused?
              && Handshake(inbound, sinkFault).result.error.cause.UnexpectedMessage?)
  {
  }

  /**
    The handshake over the channel of `make_codec`: the server answers exactly
    when some frame before the first framing error decodes, however many
    undecodable frames come before it.
   */
  lemma ReplyIffDecodableFrame<E>(decode: Bytes -> Result<Request, DecodeError>, frames: seq<Result<Bytes, IoError>>,
                                  sinkFault: Option<E>)
    ensures Handshake(Inbound(decode, frames), sinkFault).replies == [Wellcome] <==>
      exists i :: 0 <= i < OkPrefixLength(frames) && frames[i].Ok? && decode(frames[i].value).Ok?
  {
    InboundNonEmpty(decode, frames);
    var inbound := Inbound(decode, frames);
    if inbound != [] {
      assert inbound[0] == Greeting;
    }
  }

  /**
    The two ends of one connection as `handle_client` sees them: a request
    stream that will yield `inbound`, and a sink that records every response
    handed to it in `replies` and answers each send with `sinkFault`.
   */
  class Connection<E> {
    var inbound: seq<Request>
    var replies: seq<Response>
    const sinkFault: Option<E>

    constructor (inbound: seq<Request>, sinkFault: Option<E>)
      ensures this.inbound == inbound && this.sinkFault == sinkFault && replies == []
    {
      this.inbound := inbound;
      this.sinkFault := sinkFault;
      replies := [];
    }

    /** `stream.next()`: the next request, or `None` once the stream has ended. */
    method Next() returns (msg: Option<Request>)
      modifies this`inbound
      ensures old(inbound) == [] ==> msg == None && inbound == []
      ensures old(inbound) != [] ==> msg == Some(old(inbound)[0]) && inbound == old(inbound)[1..]
    {
      if inbound == [] {
        msg := None;
      } else {
        msg := Some(inbound[0]);
        inbound := inbound[1..];
      }
    }

    /** `sink.send(response)`: hands the response to the sink and reports its outcome. */
    method Send(response: Response) returns (r: Result<(), E>)
      modifies this`replies
      ensures replies == old(replies) + [response]
      ensures r == if sinkFault.None? then Ok(()) else Err(sinkFault.value)
    {
      replies := replies + [response];
      r := if sinkFault.None? then Ok(()) else Err(sinkFault.value);
    }
  }

  /** `handle_client`: reads one request and answers a `Greeting` with a `Wellcome`. */
  method HandleClient<E>(c: Connection<E>) returns (r: Result<(), HandleError<E>>)
    modifies c
    ensures var o := Handshake(old(c.inbound), c.sinkFault);
      && r == o.result
      && c.replies == old(c.replies) + o.replies
      && c.inbound == old(c.inbound)[o.consumed..]
  {
    var next := c.Next();
    if next.None? {
      return Err(Refused(ConnectionClosed));
    }
    var msg := next.value;
    if !msg.Greeting? {
      return Err(Refused(UnexpectedMessage(msg)));
    }
    var sent := c.Send(Wellcome);
    r := match sent case Ok(_) => Ok(()) case Err(e) => Err(Sink(e));
  }
}
