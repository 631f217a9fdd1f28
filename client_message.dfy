/** The device's side of a connection (deviceutils.py): it queues one
    framed request, sends it, then reads the one framed response and
    closes. */
module ClientConnection {
  import opened Common
  import opened Json
  import opened Framing

  /** The dict create_request builds: "type", "encoding" and "content". A
      content of the wrong kind for its type is a Payload of the other kind. */
  datatype Request = Request(contentType: string, encoding: string, content: Payload)

  /** create_request(user, pin) */
  function CreateRequest(user: string, pin: string): (r: Request)
    ensures r.contentType == JsonContentType && r.encoding == "utf-8"
    ensures r.content.Doc? && r.content.doc.Object?
    ensures Get(r.content.doc.fields, "user") == Some(Str(user))
    ensures Get(r.content.doc.fields, "pin") == Some(Str(pin))
  {
    var fu := Field("user", Str(user));
    var fp := Field("pin", Str(pin));
    GetPair(fu, fp);
    Request(JsonContentType, "utf-8", Doc(Object([fu, fp])))
  }

  /** The content bytes queue_request hands to _create_message: the JSON
      encoding of the content for "text/json", the content itself for any
      other type. json.dumps of bytes, and adding a dict to bytes, raise
      TypeError. */
  function RequestBytes(req: Request): (r: Result<seq<Byte>>)
    ensures req.contentType == JsonContentType ==>
              (r.Ok? <==> req.content.Doc?) && (r.Ok? ==> Decode(r.value) == Some(req.content.doc))
    ensures req.contentType != JsonContentType ==>
              (r.Ok? <==> req.content.Raw?) && (r.Ok? ==> r.value == req.content.bytes)
    ensures r.Err? ==> r.fault == TypeError
  {
    if req.contentType == JsonContentType then
      match req.content
      case Doc(j) => DecodeEncode(j); Ok(Encode(j))
      case Raw(_) => Err(TypeError)
    else
      match req.content
      case Raw(bytes) => Ok(bytes)
      case Doc(_) => Err(TypeError)
  }

  /** The frame queue_request appends. */
  function RequestFrame(req: Request): Result<seq<Byte>>
  {
    match RequestBytes(req)
    case Err(f) => Err(f)
    case Ok(content) => CreateMessage(content, req.contentType, req.encoding)
  }

  /** The frame of a request whose content bytes are `content` is laid out
      as prefix, header and exactly those bytes. */
  lemma RequestFrameLayout(req: Request)
    requires RequestFrame(req).Ok?
    ensures RequestBytes(req).Ok?
    ensures FrameLayout(RequestFrame(req).value,
                        Header(req.contentType, req.encoding, |RequestBytes(req).value|),
                        RequestBytes(req).value)
  {
  }

  /** What process_response does after the payload is stored: for
      "text/json", `self.response.get("result")` needs a dict (None, a
      string or a number raises AttributeError); the binary branch only
      prints. */
  function ResponseFault(d: Inbound): Option<Fault>
  {
    if d.header.Some? && Lookup(d.header.value, "content-type") == Ok(Str(JsonContentType)) then
      if d.payload.Some? && d.payload.value.Doc? && d.payload.value.doc.Object? then None
      else Some(AttributeError)
    else None
  }

  /** The exception a read ends with: a stage's own, or, once the payload
      stage has finished, the one reading the result raises. */
  function OutcomeFault(s: Step): Option<Fault>
  {
    if s.fault.Some? then s.fault else if s.finished then ResponseFault(s.next) else None
  }

  class Message {
    const request: Request
    /** Whether `self.response` exists: the constructor as written assigns
        `self.esponse`, so it does not. */
    const responseBound: bool
    var recvBuffer: seq<Byte>
    var sendBuffer: seq<Byte>
    var requestQueued: bool
    var headerLen: Option<nat>
    var header: Option<Json>
    var response: Option<Payload>
    var interest: Interest
    /** close() has run. */
    var closed: bool

    /** The decoder fields as one value. */
    function Decoder(): Inbound
      reads this
    {
      Inbound(recvBuffer, headerLen, header, response)
    }

    ghost predicate Valid()
      reads this
    {
      Consistent(Decoder())
    }

    /** The constructor as evidently intended: it initializes `response`. */
    constructor(request: Request)
      ensures this.request == request && responseBound
      ensures Decoder() == Fresh && sendBuffer == [] && !requestQueued
      ensures interest == EventReadWrite && !closed && Valid()
    {
      this.request := request;
      responseBound := true;
      recvBuffer := [];
      sendBuffer := [];
      requestQueued := false;
      headerLen := None;
      header := None;
      response := None;
      interest := EventReadWrite;
      closed := false;
    }

    /** The constructor as written: `self.esponse = None` leaves `response`
        unassigned. */
    constructor AsWritten(request: Request)
      ensures this.request == request && !responseBound
      ensures Decoder() == Fresh && sendBuffer == [] && !requestQueued
      ensures interest == EventReadWrite && !closed && Valid()
    {
      this.request := request;
      responseBound := false;
      recvBuffer := [];
      sendBuffer := [];
      requestQueued := false;
      headerLen := None;
      header := None;
      response := None;
      interest := EventReadWrite;
      closed := false;
    }

    /** queue_request: frame the request and append the frame; an
        exception leaves the buffer and the flag as they were. */
    method QueueRequest() returns (fault: Option<Fault>)
      modifies this
      ensures RequestFrame(request).Err? ==>
                fault == Some(RequestFrame(request).fault) &&
                sendBuffer == old(sendBuffer) && requestQueued == old(requestQueued)
      ensures RequestFrame(request).Ok? ==>
                fault.None? && requestQueued && sendBuffer == old(sendBuffer) + RequestFrame(request).value
      ensures Decoder() == old(Decoder()) && interest == old(interest) && closed == old(closed)
    {
      var message := RequestFrame(request);
      if message.Err? {
        return Some(message.fault);
      }
      sendBuffer := sendBuffer + message.value;
      requestQueued := true;
      fault := None;
    }

    /** What is left of `before` after one _write: the socket accepts up to
        its room from the front; a blocked socket or an empty buffer moves
        nothing. */
    ghost function Remaining(before: seq<Byte>, send: Send): seq<Byte>
    {
      if before == [] || send.SendBlocked? then before else before[Min(send.room, |before|)..]
    }

    /** _write: offer the buffer and drop what was accepted; the client
        never closes here. */
    method WriteSocket(send: Send)
      modifies this
      ensures sendBuffer == Remaining(old(sendBuffer), send)
      ensures old(sendBuffer) == [] || send.SendBlocked? ==> sendBuffer == old(sendBuffer)
      ensures old(sendBuffer) != [] && send.SendRoom? ==>
                var sent := Min(send.room, |old(sendBuffer)|);
                old(sendBuffer) == old(sendBuffer)[..sent] + sendBuffer &&
                sendBuffer == old(sendBuffer)[sent..]
      ensures closed == old(closed) && requestQueued == old(requestQueued)
      ensures Decoder() == old(Decoder()) && interest == old(interest)
    {
      if sendBuffer != [] {
        match send
        case SendBlocked =>
        case SendRoom(room) =>
          var sent := Min(room, |sendBuffer|);
          sendBuffer := sendBuffer[sent..];
      }
    }

    /** write(): queue the request once, send, and listen for the response
        only once the whole request has gone out. */
    method Write(send: Send) returns (fault: Option<Fault>)
      modifies this
      ensures fault.None? ==> requestQueued
      ensures old(requestQueued) ==> fault.None?
      ensures fault.None? ==> (interest == if sendBuffer == [] then EventRead else old(interest))
      ensures fault.Some? ==> interest == old(interest) && sendBuffer == old(sendBuffer)
      ensures !old(requestQueued) && fault.None? ==>
                RequestFrame(request).Ok? &&
                exists k :: 0 <= k <= |old(sendBuffer) + RequestFrame(request).value| &&
                  sendBuffer == (old(sendBuffer) + RequestFrame(request).value)[k..]
      ensures old(requestQueued) ==>
                exists k :: 0 <= k <= |old(sendBuffer)| && sendBuffer == old(sendBuffer)[k..]
      ensures old(requestQueued) ==> sendBuffer == Remaining(old(sendBuffer), send)
      ensures !old(requestQueued) && fault.None? ==>
                sendBuffer == Remaining(old(sendBuffer) + RequestFrame(request).value, send)
      ensures closed == old(closed) && Decoder() == old(Decoder())
    {
      if !requestQueued {
        fault := QueueRequest();
        if fault.Some? {
          return;
        }
      }
      fault := None;
      ghost var before := sendBuffer;
      WriteSocket(send);
      assert before[|before| - |sendBuffer|..] == sendBuffer;
      if requestQueued && sendBuffer == [] {
        interest := EventRead;
      }
    }

    /** _read */
    method ReadSocket(r: Recv) returns (fault: Option<Fault>)
      modifies this
      ensures r == Received([]) ==> fault == Some(PeerClosed) && Decoder() == old(Decoder())
      ensures r.Received? && r.data != [] ==>
                fault.None? && Decoder() == old(Decoder()).(buffer := old(recvBuffer) + r.data)
      ensures r.WouldBlock? ==> fault.None? && Decoder() == old(Decoder())
      ensures sendBuffer == old(sendBuffer) && requestQueued == old(requestQueued)
      ensures interest == old(interest) && closed == old(closed)
    {
      fault := None;
      match r
      case WouldBlock =>
      case Received(data) =>
        if data != [] {
          recvBuffer := recvBuffer + data;
        } else {
          fault := Some(PeerClosed);
        }
    }

    /** process_protoheader */
    method ProcessProtoheader()
      modifies this
      ensures Decoder() == ProtoheaderStep(old(Decoder()))
      ensures sendBuffer == old(sendBuffer) && requestQueued == old(requestQueued)
      ensures interest == old(interest) && closed == old(closed)
    {
      if |recvBuffer| >= 2 {
        headerLen := Some(Be16Value(recvBuffer[..2]));
        recvBuffer := recvBuffer[2..];
      }
    }

    /** process_jsonheader */
    method ProcessJsonHeader() returns (fault: Option<Fault>)
      requires headerLen.Some? && header.None?
      modifies this
      ensures Step(Decoder(), fault, false) == JsonHeaderStep(old(Decoder()))
      ensures sendBuffer == old(sendBuffer) && requestQueued == old(requestQueued)
      ensures interest == old(interest) && closed == old(closed)
    {
      var n := headerLen.value;
      fault := None;
      if |recvBuffer| >= n {
        var decoded := Decode(recvBuffer[..n]);
        if decoded.None? {
          return Some(JsonDecodeError);
        }
        header := Py(decoded.value);
        recvBuffer := recvBuffer[n..];
        var i := 0;
        while i < |RequiredHeaders|
          invariant 0 <= i <= |RequiredHeaders|
          invariant MissingRequired(header, RequiredHeaders) == MissingRequired(header, RequiredHeaders[i..])
        {
          assert RequiredHeaders[i..][1..] == RequiredHeaders[i + 1..];
          var present := In(RequiredHeaders[i], header);
          if present.Err? {
            return Some(present.fault);
          }
          if !present.value {
            return Some(MissingHeader(RequiredHeaders[i]));
          }
          i := i + 1;
        }
      }
    }

    /** process_response: once content-length bytes are buffered, cut them
        off and store them decoded (JSON) or raw; then the result is read
        out of a JSON response and the connection closes. */
    method ProcessResponse() returns (fault: Option<Fault>, finished: bool)
      requires header.Some?
      modifies this
      ensures Step(Decoder(), if finished then None else fault, finished) == PayloadStep(old(Decoder()))
      ensures finished ==> fault == ResponseFault(Decoder())
      ensures closed == (old(closed) || (finished && fault.None?))
      ensures sendBuffer == old(sendBuffer) && requestQueued == old(requestQueued)
      ensures interest == old(interest)
    {
      var h := header.value;
      var lengthField := Lookup(h, "content-length");
      if lengthField.Err? {
        return Some(lengthField.fault), false;
      }
      var contentLen := LengthValue(lengthField.value);
      if contentLen.Err? {
        return Some(contentLen.fault), false;
      }
      if !(|recvBuffer| >= contentLen.value) {
        return None, false;
      }
      var cut := PyCut(|recvBuffer|, contentLen.value);
      var data := recvBuffer[..cut];
      recvBuffer := recvBuffer[cut..];
      var contentType := Lookup(h, "content-type");
      if contentType.Err? {
        return Some(contentType.fault), false;
      }
      if contentType.value == Str(JsonContentType) {
        var encoding := Lookup(h, "content-encoding");
        if encoding.Err? {
          return Some(encoding.fault), false;
        }
        var doc := Decode(data);
        if doc.None? {
          return Some(JsonDecodeError), false;
        }
        response := PyPayload(doc.value);
        if !(response.Some? && response.value.Doc? && response.value.doc.Object?) {
          return Some(AttributeError), true;
        }
      } else {
        response := Some(Raw(data));
      }
      closed := true;
      return None, true;
    }

    /** The stages of read() after the recv. */
    method RunStages() returns (fault: Option<Fault>, ghost s: Step)
      modifies this
      ensures s == Stages(old(Decoder()), responseBound)
      ensures Decoder() == s.next
      ensures fault == OutcomeFault(s)
      ensures closed == (old(closed) || (s.finished && OutcomeFault(s).None?))
      ensures sendBuffer == old(sendBuffer) && requestQueued == old(requestQueued)
      ensures interest == old(interest)
    {
      ghost var received := Decoder();
      if headerLen.None? {
        ProcessProtoheader();
      }
      assert Decoder() == ProtoStage(received);
      ghost var staged := HeaderStage(ProtoStage(received));
      if headerLen.Some? && header.None? {
        fault := ProcessJsonHeader();
        if fault.Some? {
          return fault, staged;
        }
      }
      assert Step(Decoder(), None, false) == staged;
      s := PayloadStage(staged.next, responseBound);
      fault := None;
      if PyTruthy(header) {
        if !responseBound {
          fault := Some(AttributeError);
          return;
        }
        if response.None? {
          var finished;
          fault, finished := ProcessResponse();
          assert s == Step(Decoder(), if finished then None else fault, finished);
        }
      }
    }

    /** read(): one recv, then whichever stages are due, in order; the
        first exception ends the read, and a completed JSON or binary
        response closes the connection. */
    method Read(r: Recv) returns (fault: Option<Fault>, ghost s: Step)
      requires Valid()
      modifies this
      ensures Valid()
      ensures s == ReadStep(old(Decoder()), r, responseBound)
      ensures Decoder() == s.next
      ensures fault == OutcomeFault(s)
      ensures closed == (old(closed) || (s.finished && OutcomeFault(s).None?))
      ensures sendBuffer == old(sendBuffer) && requestQueued == old(requestQueued)
      ensures interest == old(interest)
    {
      ghost var start := Decoder();
      ReadStepKeepsConsistent(start, r, responseBound);
      fault := ReadSocket(r);
      if fault.Some? {
        s := ReadStep(start, r, responseBound);
        return;
      }
      assert ReadStep(start, r, responseBound) == Stages(Decoder(), responseBound);
      fault, s := RunStages();
    }
  }
}
