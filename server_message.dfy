/** The server's per-connection Message (src/serverutils.py and
    serverutils.py): it reads one framed request, answers it once with one
    framed response, sends that and closes. The two revisions differ only
    in the pin check they call, so the class carries its revision. */
module ServerConnection {
  import opened Common
  import opened Json
  import opened Framing
  import opened PinEngine
  import opened Registry

  /** serverutils.py (raw-second check) or src/serverutils.py (slice check). */
  datatype Revision = Older | Newer

  /** The pieces _create_message is called with, and the user whose
      authorization the reply granted, if any. The content is kept as the
      document or bytes it is made from; ContentBytes serialises it. */
  datatype Reply = Reply(body: Payload, contentType: string, contentEncoding: string,
                         grantTo: Option<string>)

  const Granted: string := "Authorization granted."
  const Failed: string := "Authentication failed."
  const BinaryReplyType: string := "binary/custom-server-binary-type"
  const EchoPrefix: string := "First 10 bytes of request: "

  /** {"result": msg} */
  function ResultDoc(msg: string): (j: Json)
    ensures j.Object? && Get(j.fields, "result") == Some(Str(msg))
  {
    Object([Field("result", Str(msg))])
  }

  /** f"Error: invalid action '{action}'." for request.get("action"). */
  function InvalidAction(action: Option<Scalar>): string
  {
    "Error: invalid action '" + PyStr(action) + "'."
  }

  function JsonReply(msg: string, grantTo: Option<string>): Reply
  {
    Reply(Doc(ResultDoc(msg)), JsonContentType, "utf-8", grantTo)
  }

  /** The content bytes: json.dumps(...).encode(...) of a document, the
      bytes themselves otherwise. */
  function ContentBytes(body: Payload): (b: seq<Byte>)
    ensures body.Doc? ==> Decode(b) == Some(body.doc)
    ensures body.Raw? ==> b == body.bytes
  {
    match body
    case Doc(j) => DecodeEncode(j); Encode(j)
    case Raw(bytes) => bytes
  }

  /** b"First 10 bytes of request: " + request[:10] */
  function EchoBytes(request: seq<Byte>): (r: seq<Byte>)
    ensures |r| == |EchoPrefix| + Min(10, |request|)
    ensures forall i :: 0 <= i < |EchoPrefix| ==> r[i] == EchoPrefix[i] as int
    ensures r[|EchoPrefix|..] == request[..Min(10, |request|)]
  {
    Ascii(EchoPrefix) + request[..Min(10, |request|)]
  }

  /** The decision of the revision's check_pin (the older one may raise
      instead, see JsonResponse). */
  ghost predicate Accepts(rev: Revision, mac: Mac, user: Scalar, pin: Scalar,
                          ident: map<string, Binding>, keys: map<string, string>, now: int)
  {
    if rev == Newer then PinAccepted(mac, user, pin, ident, keys, now)
    else OldPinAccepted(mac, user, pin, ident, keys, now)
  }

  /** Only a user name that is a string can have an identifier and a key. */
  lemma AcceptedUserIsString(rev: Revision, mac: Mac, user: Scalar, pin: Scalar,
                             ident: map<string, Binding>, keys: map<string, string>, now: int)
    requires Accepts(rev, mac, user, pin, ident, keys, now)
    ensures user.Str? && user.s in ident && user.s in keys
  {
    if rev == Newer {
      var s :| Slice(now) - 2 <= s <= Slice(now) + 2 && Matches(mac, user, pin, ident, keys, s);
    } else {
      var t :| now - 2 * TimeSlice <= t < now + 2 * TimeSlice && OldMatches(mac, user, pin, ident, keys, t);
    }
  }

  /** _create_response_json_content for a decoded request. A request that
      is not a dict has no .get (AttributeError); the older check raises for
      a user without an identifier. */
  ghost function JsonResponse(rev: Revision, mac: Mac, request: Payload, ident: map<string, Binding>,
                              keys: map<string, string>, now: int): Result<Reply>
  {
    match request
    case Raw(_) => Err(AttributeError)
    case Doc(Value(_)) => Err(AttributeError)
    case Doc(Object(fs)) =>
      var user := Get(fs, "user");
      var pin := Get(fs, "pin");
      if user.None? || pin.None? then Ok(JsonReply(InvalidAction(Get(fs, "action")), None))
      else if rev == Older && OldGetIdentifier(user.value, ident).Err? then Err(TypeError)
      else if Accepts(rev, mac, user.value, pin.value, ident, keys, now) then
        AcceptedUserIsString(rev, mac, user.value, pin.value, ident, keys, now);
        Ok(JsonReply(Granted, Some(user.value.s)))
      else Ok(JsonReply(Failed, None))
  }

  /** The outcomes of a JSON request: AttributeError unless it is a dict;
      the error text naming the action when "user" or "pin" is missing;
      TypeError from the older check for a user without an identifier; and
      otherwise "Authorization granted." together with a grant to that user
      exactly when the revision's check accepts the pin, and "Authentication
      failed." with no grant when it does not. */
  lemma JsonResponseOutcomes(rev: Revision, mac: Mac, request: Payload, ident: map<string, Binding>,
                             keys: map<string, string>, now: int)
    ensures var r := JsonResponse(rev, mac, request, ident, keys, now);
            && (!(request.Doc? && request.doc.Object?) ==> r == Err(AttributeError))
            && (request.Doc? && request.doc.Object? ==>
                  var fs := request.doc.fields;
                  if Get(fs, "user").None? || Get(fs, "pin").None? then
                    r == Ok(JsonReply(InvalidAction(Get(fs, "action")), None))
                  else if rev == Older && OldGetIdentifier(Get(fs, "user").value, ident).Err? then
                    r == Err(TypeError)
                  else
                    r.Ok? && r.value.contentType == JsonContentType &&
                    (r.value.body == Doc(ResultDoc(Granted)) <==>
                       Accepts(rev, mac, Get(fs, "user").value, Get(fs, "pin").value, ident, keys, now)) &&
                    (r.value.body == Doc(ResultDoc(Failed)) <==>
                       !Accepts(rev, mac, Get(fs, "user").value, Get(fs, "pin").value, ident, keys, now)) &&
                    (r.value.grantTo.Some? <==>
                       Accepts(rev, mac, Get(fs, "user").value, Get(fs, "pin").value, ident, keys, now)) &&
                    (r.value.grantTo.Some? ==> Get(fs, "user").value == Str(r.value.grantTo.value)))
  {
  }

  /** _create_response_binary_content: raw bytes are echoed; slicing a
      decoded document and adding it to bytes raises TypeError. */
  function BinaryResponse(request: Payload): (r: Result<Reply>)
    ensures request.Raw? <==> r.Ok?
    ensures r.Ok? ==> r.value.contentType == BinaryReplyType && r.value.grantTo.None? &&
                      r.value.body.Raw? &&
                      |r.value.body.bytes| == |EchoPrefix| + Min(10, |request.bytes|) &&
                      r.value.body.bytes[|EchoPrefix|..] == request.bytes[..Min(10, |request.bytes|)]
    ensures r.Ok? ==> r.value.contentEncoding == "binary" &&
                      forall i :: 0 <= i < |EchoPrefix| ==> r.value.body.bytes[i] == EchoPrefix[i] as int
    ensures r.Err? ==> r.fault == TypeError
  {
    match request
    case Raw(bytes) => Ok(Reply(Raw(EchoBytes(bytes)), BinaryReplyType, "binary", None))
    case Doc(_) => Err(TypeError)
  }

  /** create_response up to _create_message: the content type in the
      stored header picks the JSON or the binary reply. */
  ghost function ResponseFor(rev: Revision, mac: Mac, header: Option<Json>, request: Payload,
                             ident: map<string, Binding>, keys: map<string, string>, now: int)
    : Result<Reply>
  {
    match header
    case None => Err(TypeError)
    case Some(h) =>
      match Lookup(h, "content-type")
      case Err(f) => Err(f)
      case Ok(ct) =>
        if ct == Str(JsonContentType) then JsonResponse(rev, mac, request, ident, keys, now)
        else BinaryResponse(request)
  }

  /** _create_message applied to a reply: the frame, or the exception on
      the way to it. */
  function Framed(reply: Reply): Result<seq<Byte>>
  {
    CreateMessage(ContentBytes(reply.body), reply.contentType, reply.contentEncoding)
  }

  /** Python truth of `self.request`: None, b"", {}, 0, "" and False are false. */
  predicate PayloadTruthy(p: Option<Payload>)
  {
    match p
    case None => false
    case Some(Raw(bytes)) => bytes != []
    case Some(Doc(j)) => Truthy(j)
  }

  class Message {
    const rev: Revision
    var recvBuffer: seq<Byte>
    var sendBuffer: seq<Byte>
    var headerLen: Option<nat>
    var header: Option<Json>
    var request: Option<Payload>
    var responseCreated: bool
    var interest: Interest
    /** close() has run: the socket is unregistered and closed. */
    var closed: bool

    /** The decoder fields as one value. */
    function Decoder(): Inbound
      reads this
    {
      Inbound(recvBuffer, headerLen, header, request)
    }

    /** A stored request sits under a dict header whose content type says
        how it was decoded. */
    ghost predicate Valid()
      reads this
    {
      Consistent(Decoder())
    }

    constructor(rev: Revision)
      ensures this.rev == rev && Decoder() == Fresh && sendBuffer == []
      ensures !responseCreated && interest == EventRead && !closed && Valid()
    {
      this.rev := rev;
      recvBuffer := [];
      sendBuffer := [];
      headerLen := None;
      header := None;
      request := None;
      responseCreated := false;
      interest := EventRead;
      closed := false;
    }

    /** _read: a recv of 4096 bytes at most, appended to the buffer. */
    method ReadSocket(r: Recv) returns (fault: Option<Fault>)
      modifies this
      ensures r == Received([]) ==> fault == Some(PeerClosed) && Decoder() == old(Decoder())
      ensures r.Received? && r.data != [] ==>
                fault.None? && Decoder() == old(Decoder()).(buffer := old(recvBuffer) + r.data)
      ensures r.WouldBlock? ==> fault.None? && Decoder() == old(Decoder())
      ensures sendBuffer == old(sendBuffer) && responseCreated == old(responseCreated)
      ensures interest == old(interest) && closed == old(closed)
    {
      fault := None;
      match r
      case WouldBlock =>
      case Received(data) =>
        if data != [] {
          recvBuffer := recvBuffer + data;
        } else {
          fault := Some(PeerClosed);
        }
    }

    /** process_protoheader */
    method ProcessProtoheader()
      modifies this
      ensures Decoder() == ProtoheaderStep(old(Decoder()))
      ensures sendBuffer == old(sendBuffer) && responseCreated == old(responseCreated)
      ensures interest == old(interest) && closed == old(closed)
    {
      if |recvBuffer| >= 2 {
        headerLen := Some(Be16Value(recvBuffer[..2]));
        recvBuffer := recvBuffer[2..];
      }
    }

    /** process_jsonheader */
    method ProcessJsonHeader() returns (fault: Option<Fault>)
      requires headerLen.Some? && header.None?
      modifies this
      ensures Step(Decoder(), fault, false) == JsonHeaderStep(old(Decoder()))
      ensures sendBuffer == old(sendBuffer) && responseCreated == old(responseCreated)
      ensures interest == old(interest) && closed == old(closed)
    {
      var n := headerLen.value;
      fault := None;
      if |recvBuffer| >= n {
        var decoded := Decode(recvBuffer[..n]);
        if decoded.None? {
          return Some(JsonDecodeError);
        }
        header := Py(decoded.value);
        recvBuffer := recvBuffer[n..];
        var i := 0;
        while i < |RequiredHeaders|
          invariant 0 <= i <= |RequiredHeaders|
          invariant MissingRequired(header, RequiredHeaders) == MissingRequired(header, RequiredHeaders[i..])
        {
          assert RequiredHeaders[i..][1..] == RequiredHeaders[i + 1..];
          var present := In(RequiredHeaders[i], header);
          if present.Err? {
            return Some(present.fault);
          }
          if !present.value {
            return Some(MissingHeader(RequiredHeaders[i]));
          }
          i := i + 1;
        }
      }
    }

    /** process_request: once content-length bytes are buffered, cut them
        off, keep them decoded (JSON) or raw, and turn to writing. */
    method ProcessRequest() returns (fault: Option<Fault>, finished: bool)
      requires header.Some?
      modifies this
      ensures Step(Decoder(), fault, finished) == PayloadStep(old(Decoder()))
      ensures interest == if finished then EventWrite else old(interest)
      ensures sendBuffer == old(sendBuffer) && responseCreated == old(responseCreated)
      ensures closed == old(closed)
    {
      var h := header.value;
      var lengthField := Lookup(h, "content-length");
      if lengthField.Err? {
        return Some(lengthField.fault), false;
      }
      var contentLen := LengthValue(lengthField.value);
      if contentLen.Err? {
        return Some(contentLen.fault), false;
      }
      if !(|recvBuffer| >= contentLen.value) {
        return None, false;
      }
      var cut := PyCut(|recvBuffer|, contentLen.value);
      var data := recvBuffer[..cut];
      recvBuffer := recvBuffer[cut..];
      var contentType := Lookup(h, "content-type");
      if contentType.Err? {
        return Some(contentType.fault), false;
      }
      if contentType.value == Str(JsonContentType) {
        var encoding := Lookup(h, "content-encoding");
        if encoding.Err? {
          return Some(encoding.fault), false;
        }
        var doc := Decode(data);
        if doc.None? {
          return Some(JsonDecodeError), false;
        }
        request := PyPayload(doc.value);
      } else {
        request := Some(Raw(data));
      }
      interest := EventWrite;
      return None, true;
    }

    /** The stages of read() after the recv, in order; the first exception
        ends them. */
    method RunStages() returns (fault: Option<Fault>)
      modifies this
      ensures Decoder() == Stages(old(Decoder()), true).next
      ensures fault == Stages(old(Decoder()), true).fault
      ensures interest == if Stages(old(Decoder()), true).finished then EventWrite else old(interest)
      ensures sendBuffer == old(sendBuffer) && responseCreated == old(responseCreated)
      ensures closed == old(closed)
    {
      ghost var received := Decoder();
      fault := None;
      if headerLen.None? {
        ProcessProtoheader();
      }
      assert Decoder() == ProtoStage(received);
      ghost var staged := HeaderStage(ProtoStage(received));
      if headerLen.Some? && header.None? {
        fault := ProcessJsonHeader();
        if fault.Some? {
          return;
        }
      }
      assert Step(Decoder(), None, false) == staged;
      fault := None;
      if PyTruthy(header) && request.None? {
        var finished;
        fault, finished := ProcessRequest();
        assert Step(Decoder(), fault, finished) == PayloadStage(staged.next, true);
      } else {
        assert PayloadStage(staged.next, true) == Step(staged.next, None, false);
      }
    }

    /** read(): one recv, then whichever stages are due, in order; the
        first exception ends the read. */
    method Read(r: Recv) returns (fault: Option<Fault>)
      requires Valid()
      modifies this
      ensures Valid()
      ensures Decoder() == ReadStep(old(Decoder()), r, true).next
      ensures fault == ReadStep(old(Decoder()), r, true).fault
      ensures interest == if ReadStep(old(Decoder()), r, true).finished then EventWrite else old(interest)
      ensures sendBuffer == old(sendBuffer) && responseCreated == old(responseCreated)
      ensures closed == old(closed)
    {
      ghost var start := Decoder();
      ReadStepKeepsConsistent(start, r, true);
      fault := ReadSocket(r);
      if fault.Some? {
        return;
      }
      assert ReadStep(start, r, true) == Stages(Decoder(), true);
      fault := RunStages();
    }

    /** What one _write does: with bytes waiting and room in the socket,
        the accepted prefix leaves the buffer, and the connection closes
        once a send that moved bytes empties it; otherwise nothing moves. */
    ghost predicate Drained(before: seq<Byte>, send: Send, wasClosed: bool, after: seq<Byte>, isClosed: bool)
    {
      if before == [] || send.SendBlocked? then after == before && isClosed == wasClosed
      else
        var sent := Min(send.room, |before|);
        after == before[sent..] && isClosed == (wasClosed || (sent > 0 && after == []))
    }

    /** _write: offer the whole buffer, drop what was accepted, and close
        once a send that moved bytes leaves it empty. */
    method WriteSocket(send: Send)
      modifies this
      ensures Drained(old(sendBuffer), send, old(closed), sendBuffer, closed)
      ensures old(sendBuffer) == [] || send.SendBlocked? ==>
                sendBuffer == old(sendBuffer) && closed == old(closed)
      ensures old(sendBuffer) != [] && send.SendRoom? ==>
                var sent := Min(send.room, |old(sendBuffer)|);
                old(sendBuffer) == old(sendBuffer)[..sent] + sendBuffer &&
                sendBuffer == old(sendBuffer)[sent..] &&
                closed == (old(closed) || (sent > 0 && sendBuffer == []))
      ensures Decoder() == old(Decoder()) && responseCreated == old(responseCreated)
      ensures interest == old(interest)
    {
      if sendBuffer != [] {
        match send
        case SendBlocked =>
        case SendRoom(room) =>
          var sent := Min(room, |sendBuffer|);
          sendBuffer := sendBuffer[sent..];
          if sent > 0 && sendBuffer == [] {
            closed := true;
          }
      }
    }

    /** _create_response_json_content: the pin check against the clock
        reading `now` that check_pin takes, and the grant it records in
        `auth` stamped with the later reading `grantedAt`. */
    method JsonContent(mac: Mac, reg: Registry, now: int, grantedAt: int) returns (r: Result<Reply>)
      requires request.Some?
      modifies reg
      ensures r == JsonResponse(rev, mac, request.value, old(reg.ident), reg.keys, now)
      ensures reg.auth == if r.Ok? && r.value.grantTo.Some? then old(reg.auth)[r.value.grantTo.value := grantedAt]
                          else old(reg.auth)
      ensures reg.ident == old(reg.ident)
    {
      var req := request.value;
      if !(req.Doc? && req.doc.Object?) {
        return Err(AttributeError);
      }
      var fs := req.doc.fields;
      var action := Get(fs, "action");
      var user := Get(fs, "user");
      var pin := Get(fs, "pin");
      if user.None? || pin.None? {
        return Ok(JsonReply(InvalidAction(action), None));
      }
      var accepted: bool;
      if rev == Newer {
        ghost var tried;
        accepted, tried := CheckPin(mac, user.value, pin.value, reg.ident, reg.keys, now);
      } else {
        var checked := OldCheckPin(mac, user.value, pin.value, reg.ident, reg.keys, now);
        if checked.Err? {
          return Err(checked.fault);
        }
        accepted := checked.value;
      }
      assert accepted == Accepts(rev, mac, user.value, pin.value, reg.ident, reg.keys, now);
      if accepted {
        AcceptedUserIsString(rev, mac, user.value, pin.value, reg.ident, reg.keys, now);
        reg.auth := reg.auth[user.value.s := grantedAt];
        r := Ok(JsonReply(Granted, Some(user.value.s)));
      } else {
        r := Ok(JsonReply(Failed, None));
      }
    }

    /** The first half of create_response: the reply the stored header and
        request call for, with its grant recorded in `auth`. */
    method BuildReply(mac: Mac, reg: Registry, now: int, grantedAt: int) returns (reply: Result<Reply>)
      requires request.Some?
      modifies reg
      ensures reply == ResponseFor(rev, mac, header, request.value, old(reg.ident), reg.keys, now)
      ensures reg.auth == if reply.Ok? && reply.value.grantTo.Some?
                          then old(reg.auth)[reply.value.grantTo.value := grantedAt] else old(reg.auth)
      ensures reg.ident == old(reg.ident)
    {
      if header.None? {
        return Err(TypeError);
      }
      var contentType := Lookup(header.value, "content-type");
      if contentType.Err? {
        return Err(contentType.fault);
      }
      if contentType.value == Str(JsonContentType) {
        reply := JsonContent(mac, reg, now, grantedAt);
      } else {
        reply := BinaryResponse(request.value);
      }
    }

    /** create_response: build the reply, frame it, mark the response
        created and queue the frame. An exception leaves the send side
        untouched. */
    method CreateResponse(mac: Mac, reg: Registry, now: int, grantedAt: int) returns (fault: Option<Fault>, ghost reply: Result<Reply>)
      requires request.Some?
      modifies this, reg
      ensures reply == ResponseFor(rev, mac, old(header), old(request.value), old(reg.ident), reg.keys, now)
      ensures reg.auth == if reply.Ok? && reply.value.grantTo.Some?
                          then old(reg.auth)[reply.value.grantTo.value := grantedAt] else old(reg.auth)
      ensures reply.Err? ==> fault == Some(reply.fault)
      ensures reply.Ok? && Framed(reply.value).Err? ==> fault == Some(Framed(reply.value).fault)
      ensures reply.Ok? && Framed(reply.value).Ok? ==>
                fault.None? && responseCreated && sendBuffer == old(sendBuffer) + Framed(reply.value).value
      ensures fault.Some? ==> sendBuffer == old(sendBuffer) && responseCreated == old(responseCreated)
      ensures reg.ident == old(reg.ident) && Decoder() == old(Decoder())
      ensures interest == old(interest) && closed == old(closed)
    {
      var built := BuildReply(mac, reg, now, grantedAt);
      reply := built;
      if built.Err? {
        return Some(built.fault), reply;
      }
      var message := Framed(built.value);
      if message.Err? {
        return Some(message.fault), reply;
      }
      responseCreated := true;
      sendBuffer := sendBuffer + message.value;
      fault := None;
    }

    /** write(): create the response the first time a truthy request is
        there, then send. Once created, a response is never created again:
        later writes only drain the buffer and never touch `auth`. */
    method Write(mac: Mac, reg: Registry, now: int, grantedAt: int, send: Send) returns (fault: Option<Fault>)
      modifies this, reg
      ensures old(responseCreated) || !PayloadTruthy(old(request)) ==>
                fault.None? && reg.auth == old(reg.auth) && responseCreated == old(responseCreated) &&
                exists k :: 0 <= k <= |old(sendBuffer)| && sendBuffer == old(sendBuffer)[k..]
      ensures old(responseCreated) || !PayloadTruthy(old(request)) ==>
                Drained(old(sendBuffer), send, old(closed), sendBuffer, closed)
      ensures !old(responseCreated) && PayloadTruthy(old(request)) ==>
                var reply := ResponseFor(rev, mac, old(header), old(request).value, old(reg.ident), reg.keys, now);
                && reg.auth == (if reply.Ok? && reply.value.grantTo.Some?
                                then old(reg.auth)[reply.value.grantTo.value := grantedAt] else old(reg.auth))
                && (reply.Err? ==>
                      fault == Some(reply.fault) && !responseCreated &&
                      sendBuffer == old(sendBuffer) && closed == old(closed))
                && (reply.Ok? && Framed(reply.value).Err? ==>
                      fault == Some(Framed(reply.value).fault) && !responseCreated &&
                      sendBuffer == old(sendBuffer) && closed == old(closed))
                && (reply.Ok? && Framed(reply.value).Ok? ==>
                      fault.None? && responseCreated &&
                      Drained(old(sendBuffer) + Framed(reply.value).value, send, old(closed), sendBuffer, closed))
      ensures old(responseCreated) ==> responseCreated
      ensures reg.ident == old(reg.ident) && Decoder() == old(Decoder()) && interest == old(interest)
    {
      if PayloadTruthy(request) && !responseCreated {
        ghost var reply;
        fault, reply := CreateResponse(mac, reg, now, grantedAt);
        if fault.Some? {
          return;
        }
      }
      fault := None;
      ghost var before := sendBuffer;
      WriteSocket(send);
      assert before[|before| - |sendBuffer|..] == sendBuffer;
    }
  }
}
