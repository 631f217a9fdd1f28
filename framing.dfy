/** The two-layer frame both ends exchange, and the staged decoder that
    reassembles it from whatever the socket hands over.

      [2 bytes, big-endian: n] [n bytes: JSON header] [content-length bytes: content]

    _create_message builds a frame (src/serverutils.py:228-245,
    serverutils.py:140-152, deviceutils.py:217-234). The decoder is the
    trio process_protoheader / process_jsonheader / process_request (server)
    or process_response (client), run in that order by `read` after every
    recv. Its state is the tuple of fields those methods update; the
    datatype Inbound below is that tuple, and both Message classes expose
    their fields as an Inbound so that their methods can be proved against
    the functions here. */
module Framing {
  import opened Common
  import opened Json

  /** sys.byteorder on the sending host. The decoder requires the key but
      never reads its value. */
  const HostByteOrder: string := "little"

  /** The keys process_jsonheader insists on, in the order it checks them. */
  const RequiredHeaders: seq<string> := ["byteorder", "content-length", "content-type", "content-encoding"]

  const JsonContentType: string := "text/json"

  /** The header dict _create_message serialises. */
  function Header(contentType: string, contentEncoding: string, contentLength: nat): Json
  {
    Object([Field("byteorder", Str(HostByteOrder)),
            Field("content-type", Str(contentType)),
            Field("content-encoding", Str(contentEncoding)),
            Field("content-length", Int(contentLength))])
  }

  /** A frame whose prefix announces the length n of the header's encoding,
      whose next n bytes decode to the header h, and whose remaining bytes
      are exactly the content. */
  ghost predicate FrameLayout(m: seq<Byte>, h: Json, content: seq<Byte>)
  {
    Laid(m, h, content) && Be16Value(m[..2]) == |Encode(h)|
  }

  /** The same without the length of the encoding. */
  ghost predicate Laid(m: seq<Byte>, h: Json, content: seq<Byte>)
  {
    |m| >= 2 &&
    var n := Be16Value(m[..2]);
    |m| == 2 + n + |content| && Decode(m[2..2 + n]) == Some(h) && m[2 + n..] == content
  }

  /** _create_message: struct.pack(">H", n) raises struct.error when the
      serialised header is longer than 65535 bytes. */
  function CreateMessage(content: seq<Byte>, contentType: string, contentEncoding: string)
    : (r: Result<seq<Byte>>)
    ensures r.Err? <==> |Encode(Header(contentType, contentEncoding, |content|))| > MaxBe16
    ensures r.Err? ==> r.fault == StructError
    ensures r.Ok? ==> FrameLayout(r.value, Header(contentType, contentEncoding, |content|), content)
  {
    Assemble(Header(contentType, contentEncoding, |content|), content)
  }

  /** The frame for header h: a big-endian 16-bit length, the serialised
      header and the content. */
  function Assemble(h: Json, content: seq<Byte>): (r: Result<seq<Byte>>)
    ensures r.Err? <==> |Encode(h)| > MaxBe16
    ensures r.Err? ==> r.fault == StructError
    ensures r.Ok? ==> FrameLayout(r.value, h, content)
  {
    var headerBytes := Encode(h);
    if |headerBytes| > MaxBe16 then Err(StructError)
    else
      var m := Be16(|headerBytes|) + headerBytes + content;
      DecodeEncode(h);
      assert m[..2] == Be16(|headerBytes|);
      assert m[2..2 + |headerBytes|] == headerBytes;
      Ok(m)
  }

  // ---- Python's view of a decoded document ----

  /** json.load returns None for the document `null`. */
  function Py(j: Json): (r: Option<Json>)
    ensures r.None? <==> j == Value(Null)
    ensures r.Some? ==> r.value == j
  {
    if j == Value(Null) then None else Some(j)
  }

  /** Truth value of an attribute that holds a decoded document or None. */
  predicate PyTruthy(v: Option<Json>)
  {
    v.Some? && Truthy(v.value)
  }

  predicate OccursAt(k: string, s: string, i: int)
  {
    0 <= i <= |s| - |k| && s[i..i + |k|] == k
  }

  /** Python's `k in s` for two strings. */
  predicate IsSubstring(k: string, s: string)
  {
    exists i | 0 <= i <= |s| - |k| :: OccursAt(k, s, i)
  }

  /** `key in h`: key membership for a dict, substring search for a str,
      TypeError for None, a number or a bool. */
  function In(key: string, h: Option<Json>): (r: Result<bool>)
    ensures h.Some? && h.value.Object? ==> r == Ok(Get(h.value.fields, key).Some?)
    ensures (h.None? || (h.value.Value? && !h.value.v.Str?)) <==> r.Err?
    ensures r.Err? ==> r.fault == TypeError
    ensures h.Some? && h.value.Value? && h.value.v.Str? ==> r == Ok(IsSubstring(key, h.value.v.s))
  {
    match h
    case None => Err(TypeError)
    case Some(Object(fs)) => Ok(Get(fs, key).Some?)
    case Some(Value(Str(s))) => Ok(IsSubstring(key, s))
    case Some(Value(_)) => Err(TypeError)
  }

  /** `h[key]`: KeyError for a dict without the key; a str, number or bool
      cannot be indexed by a string (TypeError). */
  function Lookup(h: Json, key: string): (r: Result<Scalar>)
    ensures r.Ok? <==> h.Object? && Get(h.fields, key).Some?
    ensures r.Ok? ==> r.value == Get(h.fields, key).value
    ensures r.Err? ==> r.fault == (if h.Object? then KeyError else TypeError)
  {
    match h
    case Object(fs) => if Get(fs, key).Some? then Ok(Get(fs, key).value) else Err(KeyError)
    case Value(_) => Err(TypeError)
  }

  /** The validation loop of process_jsonheader: the first required key that
      is not `in` the header raises ValueError; a header that does not
      support `in` raises TypeError at the first test. */
  function MissingRequired(h: Option<Json>, keys: seq<string>): (f: Option<Fault>)
    ensures f.None? <==> forall i :: 0 <= i < |keys| ==> In(keys[i], h) == Ok(true)
  {
    if keys == [] then None
    else match In(keys[0], h)
      case Err(e) => Some(e)
      case Ok(false) => Some(MissingHeader(keys[0]))
      case Ok(true) => MissingRequired(h, keys[1..])
  }

  /** For a dict header the fault names the first required key, in checking
      order, that the header lacks. */
  lemma {:induction false} MissingRequiredNamesFirst(fs: seq<Field>, keys: seq<string>)
    requires MissingRequired(Some(Object(fs)), keys).Some?
    ensures exists i :: 0 <= i < |keys| && Get(fs, keys[i]).None? &&
              MissingRequired(Some(Object(fs)), keys) == Some(MissingHeader(keys[i])) &&
              forall j :: 0 <= j < i ==> Get(fs, keys[j]).Some?
  {
    if Get(fs, keys[0]).None? {
      assert MissingRequired(Some(Object(fs)), keys) == Some(MissingHeader(keys[0]));
    } else {
      MissingRequiredNamesFirst(fs, keys[1..]);
      var i :| 0 <= i < |keys[1..]| && Get(fs, keys[1..][i]).None? &&
                MissingRequired(Some(Object(fs)), keys[1..]) == Some(MissingHeader(keys[1..][i])) &&
                forall j :: 0 <= j < i ==> Get(fs, keys[1..][j]).Some?;
      assert Get(fs, keys[i + 1]).None?;
      assert forall j :: 0 <= j < i + 1 ==> Get(fs, keys[j]).Some? by {
        forall j | 0 <= j < i + 1 ensures Get(fs, keys[j]).Some? {
          if j > 0 { assert keys[j] == keys[1..][j - 1]; }
        }
      }
    }
  }

  /** The content-length value as `len(buf) >= v` and `buf[:v]` use it: an
      int, or a bool as 0/1; any other value raises TypeError. */
  function LengthValue(v: Scalar): (r: Result<int>)
    ensures r.Ok? <==> v.Int? || v.Bool?
    ensures v.Int? ==> r == Ok(v.i)
    ensures v.Bool? ==> r == Ok(if v.b then 1 else 0)
    ensures r.Err? ==> r.fault == TypeError
  {
    match v
    case Int(i) => Ok(i)
    case Bool(b) => Ok(if b then 1 else 0)
    case _ => Err(TypeError)
  }

  // ---- the decoder ----

  /** What process_request stores in `request` (process_response in
      `response`): the decoded document, or the raw bytes for any other
      content type. */
  datatype Payload = Doc(doc: Json) | Raw(bytes: seq<Byte>)

  /** _recv_buffer, _jsonheader_len, jsonheader and request/response; None
      stands for Python's None. */
  datatype Inbound = Inbound(buffer: seq<Byte>, headerLen: Option<nat>, header: Option<Json>,
                             payload: Option<Payload>)

  const Fresh: Inbound := Inbound([], None, None, None)

  /** One stage or one read: the new state, the exception raised (the state
      is what the fields hold when it propagates), and whether the payload
      stage ran to its end, where the server switches to writing and the
      client closes. */
  datatype Step = Step(next: Inbound, fault: Option<Fault>, finished: bool)

  /** process_protoheader */
  function ProtoheaderStep(d: Inbound): (r: Inbound)
    ensures |d.buffer| < 2 ==> r == d
    ensures |d.buffer| >= 2 ==>
              r == d.(headerLen := Some(Be16Value(d.buffer[..2])), buffer := d.buffer[2..])
  {
    if |d.buffer| >= 2 then d.(headerLen := Some(Be16Value(d.buffer[..2])), buffer := d.buffer[2..])
    else d
  }

  /** process_jsonheader: the header is decoded only once n bytes are
      buffered; a decode failure raises before anything changes, while the
      required-key check runs after the header bytes have been consumed and
      the header stored. */
  function JsonHeaderStep(d: Inbound): (s: Step)
    requires d.headerLen.Some? && d.header.None?
    ensures !s.finished && s.next.headerLen == d.headerLen && s.next.payload == d.payload
    ensures |d.buffer| < d.headerLen.value ==> s == Step(d, None, false)
    ensures s.fault.None? && s.next.header.Some? ==>
              |d.buffer| >= d.headerLen.value &&
              s.next.buffer == d.buffer[d.headerLen.value..] &&
              Decode(d.buffer[..d.headerLen.value]) == Some(s.next.header.value) &&
              forall i :: 0 <= i < |RequiredHeaders| ==> In(RequiredHeaders[i], s.next.header) == Ok(true)
  {
    var n := d.headerLen.value;
    if |d.buffer| < n then Step(d, None, false)
    else match Decode(d.buffer[..n])
      case None => Step(d, Some(JsonDecodeError), false)
      case Some(h) =>
        Step(d.(header := Py(h), buffer := d.buffer[n..]), MissingRequired(Py(h), RequiredHeaders), false)
  }

  /** The failure paths of process_jsonheader: bytes that do not decode
      raise JSONDecodeError with nothing consumed; decoded bytes are consumed
      and the header stored before the required-key check, whose first
      missing key is the fault. */
  lemma JsonHeaderStepOutcomes(d: Inbound)
    requires d.headerLen.Some? && d.header.None?
    requires |d.buffer| >= d.headerLen.value
    ensures var n := d.headerLen.value;
            var s := JsonHeaderStep(d);
            && (Decode(d.buffer[..n]).None? ==> s == Step(d, Some(JsonDecodeError), false))
            && (Decode(d.buffer[..n]).Some? ==>
                  var h := Py(Decode(d.buffer[..n]).value);
                  s.next == d.(header := h, buffer := d.buffer[n..]) &&
                  s.fault == MissingRequired(h, RequiredHeaders))
  {
  }

  /** The payload a decoded document leaves in the attribute. */
  function PyPayload(j: Json): Option<Payload>
  {
    if j == Value(Null) then None else Some(Doc(j))
  }

  /** process_request / process_response up to the point where they
      diverge: wait for content-length bytes, consume them, then decode them
      as JSON when content-type is "text/json" and keep them raw otherwise.
      Any lookup or decoding failure after the cut leaves the bytes consumed. */
  function PayloadStep(d: Inbound): (s: Step)
    requires d.header.Some?
    ensures s.next.headerLen == d.headerLen && s.next.header == d.header
    ensures s.fault.None? && !s.finished ==> s.next == d
    ensures s.finished ==> s.fault.None? && |s.next.buffer| <= |d.buffer|
    ensures s.finished && Lookup(d.header.value, "content-length") == Ok(Int(|d.buffer|)) ==>
              s.next.buffer == []
    ensures !s.finished ==> s.next.payload == d.payload
    ensures s.finished ==>
              d.header.value.Object? && Lookup(d.header.value, "content-type").Ok? &&
              if Lookup(d.header.value, "content-type").value == Str(JsonContentType)
              then s.next.payload.None? || s.next.payload.value.Doc?
              else s.next.payload.Some? && s.next.payload.value.Raw?
  {
    var h := d.header.value;
    match Lookup(h, "content-length")
    case Err(f) => Step(d, Some(f), false)
    case Ok(v) =>
      match LengthValue(v)
      case Err(f) => Step(d, Some(f), false)
      case Ok(len) =>
        if !(|d.buffer| >= len) then Step(d, None, false)
        else
          var cut := PyCut(|d.buffer|, len);
          var data := d.buffer[..cut];
          var rest := d.(buffer := d.buffer[cut..]);
          assert d.buffer == data + rest.buffer;
          match Lookup(h, "content-type")
          case Err(f) => Step(rest, Some(f), false)
          case Ok(contentType) =>
            if contentType == Str(JsonContentType) then
              match Lookup(h, "content-encoding")
              case Err(f) => Step(rest, Some(f), false)
              case Ok(_) =>
                match Decode(data)
                case None => Step(rest, Some(JsonDecodeError), false)
                case Some(j) => Step(rest.(payload := PyPayload(j)), None, true)
            else
              Step(rest.(payload := Some(Raw(data))), None, true)
  }

  /** The outcomes of PayloadStep on each path of process_request: a
      missing or unusable content-length raises with nothing changed; a short
      buffer waits; otherwise exactly the sliced bytes leave the buffer, the
      payload becomes the decoded document for "text/json" and the raw bytes
      otherwise, and a failure after the cut keeps the old payload. */
  lemma PayloadStepOutcomes(d: Inbound)
    requires d.header.Some?
    ensures var h := d.header.value;
            var s := PayloadStep(d);
            && (Lookup(h, "content-length").Err? ==>
                  s == Step(d, Some(Lookup(h, "content-length").fault), false))
            && (Lookup(h, "content-length").Ok? && LengthValue(Lookup(h, "content-length").value).Err? ==>
                  s == Step(d, Some(TypeError), false))
            && (Lookup(h, "content-length").Ok? && LengthValue(Lookup(h, "content-length").value).Ok? ==>
                  var len := LengthValue(Lookup(h, "content-length").value).value;
                  if |d.buffer| < len then s == Step(d, None, false)
                  else
                    var cut := PyCut(|d.buffer|, len);
                    && s.next.buffer == d.buffer[cut..]
                    && (s.finished <==> s.fault.None?)
                    && (s.fault.Some? ==> s.next.payload == d.payload)
                    && (s.finished ==>
                          Lookup(h, "content-type").Ok? &&
                          if Lookup(h, "content-type").value == Str(JsonContentType)
                          then Decode(d.buffer[..cut]).Some? &&
                               s.next.payload == PyPayload(Decode(d.buffer[..cut]).value)
                          else s.next.payload == Some(Raw(d.buffer[..cut]))))
  {
  }

  /** The first two `if`s of read(). */
  function ProtoStage(d: Inbound): Inbound
  {
    if d.headerLen.None? then ProtoheaderStep(d) else d
  }

  function HeaderStage(d: Inbound): Step
  {
    if d.headerLen.Some? && d.header.None? then JsonHeaderStep(d) else Step(d, None, false)
  }

  /** The third `if` of read(): `if self.jsonheader: if self.request is
      None:` on the server, `self.response` on the client. `slotBound` says
      whether that attribute exists; reading an attribute the constructor
      never assigned raises AttributeError. */
  function PayloadStage(d: Inbound, slotBound: bool): (s: Step)
    ensures !PyTruthy(d.header) ==> s == Step(d, None, false)
    ensures PyTruthy(d.header) && !slotBound ==> s == Step(d, Some(AttributeError), false)
  {
    if PyTruthy(d.header) then
      if !slotBound then Step(d, Some(AttributeError), false)
      else if d.payload.None? then PayloadStep(d)
      else Step(d, None, false)
    else Step(d, None, false)
  }

  function Stages(d: Inbound, slotBound: bool): Step
  {
    var s := HeaderStage(ProtoStage(d));
    if s.fault.Some? then s else PayloadStage(s.next, slotBound)
  }

  /** What one recv delivers: nothing yet (BlockingIOError), or bytes; an
      empty byte string means the peer closed. */
  datatype Recv = WouldBlock | Received(data: seq<Byte>)

  /** read(): _read, then the stages. */
  function ReadStep(d: Inbound, r: Recv, slotBound: bool): (s: Step)
    ensures r == Received([]) ==> s == Step(d, Some(PeerClosed), false)
  {
    match r
    case Received(data) =>
      if data == [] then Step(d, Some(PeerClosed), false)
      else Stages(d.(buffer := d.buffer + data), slotBound)
    case WouldBlock => Stages(d, slotBound)
  }

  /** The events the selector watches a connection's socket for. */
  datatype Interest = EventRead | EventWrite | EventReadWrite

  /** What one send() does: nothing (BlockingIOError), or accept up to
      `room` bytes of what it is offered. */
  datatype Send = SendBlocked | SendRoom(room: nat)

  /** Successive reads, each delivering the next chunk, until one raises. */
  function Feed(d: Inbound, chunks: seq<seq<Byte>>, slotBound: bool): Result<Inbound>
    decreases |chunks|
  {
    if chunks == [] then Ok(d)
    else
      var s := ReadStep(d, Received(chunks[0]), slotBound);
      if s.fault.Some? then Err(s.fault.value) else Feed(s.next, chunks[1..], slotBound)
  }

  /** A stored payload sits under a dict header whose content type says how
      it was decoded: a document for "text/json", raw bytes otherwise. */
  ghost predicate Consistent(d: Inbound)
  {
    d.payload.Some? ==>
      d.header.Some? && d.header.value.Object? && Lookup(d.header.value, "content-type").Ok? &&
      (d.payload.value.Doc? <==> Lookup(d.header.value, "content-type").value == Str(JsonContentType))
  }

  /** Every read keeps payload and header consistent. */
  lemma ReadStepKeepsConsistent(d: Inbound, r: Recv, slotBound: bool)
    requires Consistent(d)
    ensures Consistent(ReadStep(d, r, slotBound).next)
  {
    var d' := if r.Received? && r.data != [] then d.(buffer := d.buffer + r.data) else d;
    var s := HeaderStage(ProtoStage(d'));
    assert Consistent(s.next);
    if s.fault.None? && PyTruthy(s.next.header) && slotBound && s.next.payload.None? {
      var p := PayloadStep(s.next);
      assert Consistent(p.next);
    }
  }

  // ---- what a frame carries ----

  /** The payload the decoder should produce for this content. */
  ghost predicate Carries(contentType: string, content: seq<Byte>, p: Payload)
  {
    if contentType == JsonContentType then
      Decode(content).Some? && Decode(content).value != Value(Null) && p == Doc(Decode(content).value)
    else p == Raw(content)
  }

  /** A header the decoder accepts and that announces this content. */
  ghost predicate Describes(h: Json, content: seq<Byte>, p: Payload)
  {
    MissingRequired(Some(h), RequiredHeaders) == None && Announces(h, content, p)
  }

  /** A dict header whose length, type and encoding announce this content:
      what the payload stage reads from it. */
  ghost predicate Announces(h: Json, content: seq<Byte>, p: Payload)
  {
    h.Object? && h.fields != [] &&
    Lookup(h, "content-length") == Ok(Int(|content|)) &&
    Lookup(h, "content-type").Ok? && Lookup(h, "content-type").value.Str? &&
    Lookup(h, "content-encoding").Ok? &&
    Carries(Lookup(h, "content-type").value.s, content, p)
  }

  /** Looking a key up in a dict literal: the last entry decides. */
  lemma GetSnoc(fs: seq<Field>, f: Field, key: string)
    ensures Get(fs + [f], key) == if f.key == key then Some(f.value) else Get(fs, key)
  {
    assert (fs + [f])[..|fs|] == fs;
  }

  lemma HeaderDescribes(contentType: string, contentEncoding: string, content: seq<Byte>, p: Payload)
    requires Carries(contentType, content, p)
    ensures Describes(Header(contentType, contentEncoding, |content|), content, p)
  {
    HeaderFields(contentType, contentEncoding, |content|);
    FieldsDescribe(Header(contentType, contentEncoding, |content|), contentType, contentEncoding, content, p);
  }

  /** A dict with the four keys, a string content type and encoding and
      the right length describes the content it carries. */
  lemma FieldsDescribe(h: Json, contentType: string, contentEncoding: string, content: seq<Byte>, p: Payload)
    requires h.Object?
    requires Get(h.fields, "byteorder").Some?
    requires Get(h.fields, "content-type") == Some(Str(contentType))
    requires Get(h.fields, "content-encoding") == Some(Str(contentEncoding))
    requires Get(h.fields, "content-length") == Some(Int(|content|))
    requires Carries(contentType, content, p)
    ensures Describes(h, content, p)
  {
    var keys := RequiredHeaders;
    assert MissingRequired(Some(h), keys[4..]) == None;
    assert MissingRequired(Some(h), keys[3..]) == None by { assert keys[3..][1..] == keys[4..]; }
    assert MissingRequired(Some(h), keys[2..]) == None by { assert keys[2..][1..] == keys[3..]; }
    assert MissingRequired(Some(h), keys[1..]) == None by { assert keys[1..][1..] == keys[2..]; }
  }

  /** What each header key looks up to in the header _create_message builds. */
  lemma HeaderFields(contentType: string, contentEncoding: string, n: nat)
    ensures var fs := Header(contentType, contentEncoding, n).fields;
            Get(fs, "byteorder") == Some(Str(HostByteOrder)) &&
            Get(fs, "content-type") == Some(Str(contentType)) &&
            Get(fs, "content-encoding") == Some(Str(contentEncoding)) &&
            Get(fs, "content-length") == Some(Int(n))
  {
    var f0 := Field("byteorder", Str(HostByteOrder));
    var f1 := Field("content-type", Str(contentType));
    var f2 := Field("content-encoding", Str(contentEncoding));
    var f3 := Field("content-length", Int(n));
    var fs := Header(contentType, contentEncoding, n).fields;
    assert fs == [f0] + [f1] + [f2] + [f3];
    forall key | key in RequiredHeaders
      ensures Get(fs, key) == if key == "content-length" then Some(f3.value)
                              else if key == "content-encoding" then Some(f2.value)
                              else if key == "content-type" then Some(f1.value)
                              else Some(f0.value)
    {
      GetSnoc([], f0, key);
      GetSnoc([f0], f1, key);
      GetSnoc([f0] + [f1], f2, key);
      GetSnoc([f0] + [f1] + [f2], f3, key);
    }
    assert "byteorder" in RequiredHeaders;
    assert "content-type" in RequiredHeaders;
    assert "content-encoding" in RequiredHeaders;
    assert "content-length" in RequiredHeaders;
  }

  /** A dict header that fails the key check is refused, naming a missing
      key. */
  lemma MissingKeyRaises(d: Inbound, key: string)
    requires d.headerLen.Some? && d.header.None? && |d.buffer| >= d.headerLen.value
    requires Decode(d.buffer[..d.headerLen.value]).Some?
    requires Decode(d.buffer[..d.headerLen.value]).value.Object?
    requires key in RequiredHeaders
    requires Get(Decode(d.buffer[..d.headerLen.value]).value.fields, key).None?
    ensures JsonHeaderStep(d).fault.Some?
    ensures JsonHeaderStep(d).fault.value.MissingHeader?
  {
    var h := Decode(d.buffer[..d.headerLen.value]).value;
    var i :| 0 <= i < |RequiredHeaders| && RequiredHeaders[i] == key;
    assert In(RequiredHeaders[i], Some(h)) == Ok(false);
    MissingRequiredNamesFirst(h.fields, RequiredHeaders);
  }

  // ---- decoding a frame delivered in arbitrary chunks ----

  /** Once a described header is stored, the payload stage waits while
      part of the content is buffered ... */
  lemma PayloadStageWaits(buf: seq<Byte>, n: nat, h: Json, content: seq<Byte>, p: Payload)
    requires Announces(h, content, p) && |buf| < |content|
    ensures PayloadStage(Inbound(buf, Some(n), Some(h), None), true) ==
              Step(Inbound(buf, Some(n), Some(h), None), None, false)
  {
    assert PyTruthy(Some(h));
  }

  /** ... and, once all of it is, yields the payload and an empty buffer. */
  lemma PayloadStageYields(n: nat, h: Json, content: seq<Byte>, p: Payload)
    requires Announces(h, content, p)
    ensures PayloadStage(Inbound(content, Some(n), Some(h), None), true) ==
              Step(Inbound([], Some(n), Some(h), Some(p)), None, true)
  {
    assert PyTruthy(Some(h));
    assert content[..|content|] == content;
    assert content[|content|..] == [];
  }

  /** The header stage, once n bytes are buffered, stores a header that
      passes the key check and consumes exactly those bytes. */
  lemma HeaderStageOnBytes(buf: seq<Byte>, n: nat, h: Json)
    requires |buf| >= n ==> Decode(buf[..n]) == Some(h)
    requires h.Object? && MissingRequired(Some(h), RequiredHeaders) == None
    ensures HeaderStage(Inbound(buf, Some(n), None, None)) ==
              if |buf| < n then Step(Inbound(buf, Some(n), None, None), None, false)
              else Step(Inbound(buf[n..], Some(n), Some(h), None), None, false)
  {
  }

  /** The decoder's state once the first m bytes of the frame have arrived
      and been processed: which stages are done follows from m alone. */
  ghost function Expected(frame: seq<Byte>, h: Json, p: Payload, m: nat): Inbound
    requires 2 <= |frame| && m <= |frame|
  {
    var n := Be16Value(frame[..2]);
    if m < 2 then Inbound(frame[..m], None, None, None)
    else if m < 2 + n then Inbound(frame[2..m], Some(n), None, None)
    else if m < |frame| then Inbound(frame[2 + n..m], Some(n), Some(h), None)
    else Inbound([], Some(n), Some(h), Some(p))
  }

  /** From the state after the header, the rest of a read. */
  lemma AfterHeaderOnFrame(frame: seq<Byte>, h: Json, content: seq<Byte>, p: Payload, m: nat)
    requires 2 <= |frame| && Announces(h, content, p)
    requires |frame| == 2 + Be16Value(frame[..2]) + |content|
    requires frame[2 + Be16Value(frame[..2])..] == content
    requires 2 + Be16Value(frame[..2]) <= m <= |frame|
    ensures PayloadStage(Inbound(frame[2 + Be16Value(frame[..2])..m], Some(Be16Value(frame[..2])), Some(h), None), true) ==
              Step(Expected(frame, h, p, m), None, m == |frame|)
  {
    if m == |frame| {
      assert frame[2 + Be16Value(frame[..2])..m] == content;
      ContentComplete(frame, h, frame[2 + Be16Value(frame[..2])..m], content, p);
    } else {
      var n := Be16Value(frame[..2]);
      PayloadStageWaits(frame[2 + n..m], n, h, content, p);
      ExpectedInContent(frame, h, p, m);
    }
  }

  /** The read that completes the content yields the payload. */
  lemma ContentComplete(frame: seq<Byte>, h: Json, buf: seq<Byte>, content: seq<Byte>, p: Payload)
    requires 2 <= |frame| && 2 + Be16Value(frame[..2]) <= |frame|
    requires Announces(h, content, p) && buf == content
    ensures PayloadStage(Inbound(buf, Some(Be16Value(frame[..2])), Some(h), None), true) ==
              Step(Expected(frame, h, p, |frame|), None, true)
  {
    PayloadStageYields(Be16Value(frame[..2]), h, content, p);
    ExpectedAtEnd(frame, h, p);
  }

  lemma ExpectedAtEnd(frame: seq<Byte>, h: Json, p: Payload)
    requires 2 <= |frame| && 2 + Be16Value(frame[..2]) <= |frame|
    ensures Expected(frame, h, p, |frame|) == Inbound([], Some(Be16Value(frame[..2])), Some(h), Some(p))
  {
  }

  lemma ExpectedInContent(frame: seq<Byte>, h: Json, p: Payload, m: nat)
    requires 2 <= |frame| && 2 + Be16Value(frame[..2]) <= m < |frame|
    ensures var n := Be16Value(frame[..2]);
            Expected(frame, h, p, m) == Inbound(frame[2 + n..m], Some(n), Some(h), None)
  {
  }

  lemma ExpectedInHeader(frame: seq<Byte>, h: Json, p: Payload, m: nat)
    requires 2 <= m <= |frame| && m < 2 + Be16Value(frame[..2])
    ensures Expected(frame, h, p, m) == Inbound(frame[2..m], Some(Be16Value(frame[..2])), None, None)
  {
  }

  /** From the state after the prefix, the rest of a read. */
  lemma AfterPrefixOnFrame(frame: seq<Byte>, h: Json, content: seq<Byte>, p: Payload, m: nat)
    requires Laid(frame, h, content) && Describes(h, content, p)
    requires 2 <= m <= |frame|
    ensures Stages(Inbound(frame[2..m], Some(Be16Value(frame[..2])), None, None), true) ==
              Step(Expected(frame, h, p, m), None, m == |frame|)
  {
    var n := Be16Value(frame[..2]);
    if m < 2 + n {
      HeaderIncomplete(frame[2..m], n, h, true);
    } else {
      HeaderComplete(frame, h, m, true);
      AfterHeaderOnFrame(frame, h, content, p, m);
    }
  }

  /** With fewer than n header bytes buffered, the stages wait. */
  lemma HeaderIncomplete(buf: seq<Byte>, n: nat, h: Json, slotBound: bool)
    requires |buf| < n
    ensures Stages(Inbound(buf, Some(n), None, None), slotBound) == Step(Inbound(buf, Some(n), None, None), None, false)
  {
    var d := Inbound(buf, Some(n), None, None);
    assert ProtoStage(d) == d;
    assert HeaderStage(d) == Step(d, None, false);
  }

  /** Once the whole header is buffered, the header stage stores it and
      hands the rest to the payload stage. */
  lemma HeaderComplete(frame: seq<Byte>, h: Json, m: nat, slotBound: bool)
    requires |frame| >= 2 && 2 + Be16Value(frame[..2]) <= m <= |frame|
    requires Decode(frame[2..2 + Be16Value(frame[..2])]) == Some(h)
    requires h.Object? && MissingRequired(Some(h), RequiredHeaders) == None
    ensures var n := Be16Value(frame[..2]);
            Stages(Inbound(frame[2..m], Some(n), None, None), slotBound) ==
            PayloadStage(Inbound(frame[2 + n..m], Some(n), Some(h), None), slotBound)
  {
    var n := Be16Value(frame[..2]);
    var d := Inbound(frame[2..m], Some(n), None, None);
    assert ProtoStage(d) == d;
    assert frame[2..m][..n] == frame[2..2 + n];
    assert frame[2..m][n..] == frame[2 + n..m];
    HeaderStageOnBytes(frame[2..m], n, h);
  }

  /** One read that delivers the next chunk of the frame takes the decoder
      from the state for m bytes to the state for m' bytes, without a fault. */
  lemma ReadOnFrame(frame: seq<Byte>, h: Json, content: seq<Byte>, p: Payload, m: nat, m': nat)
    requires Laid(frame, h, content) && Describes(h, content, p)
    requires m < m' <= |frame|
    ensures ReadStep(Expected(frame, h, p, m), Received(frame[m..m']), true) ==
              Step(Expected(frame, h, p, m'), None, m' == |frame|)
  {
    var n := Be16Value(frame[..2]);
    if m < 2 {
      ReadFromStart(frame, h, content, p, m, m');
    } else if m < 2 + n {
      ReadInHeader(frame, h, content, p, m, m');
    } else {
      ReadInContent(frame, h, content, p, m, m');
    }
  }

  lemma ReadInHeader(frame: seq<Byte>, h: Json, content: seq<Byte>, p: Payload, m: nat, m': nat)
    requires Laid(frame, h, content) && Describes(h, content, p)
    requires 2 <= m < 2 + Be16Value(frame[..2]) && m < m' <= |frame|
    ensures ReadStep(Expected(frame, h, p, m), Received(frame[m..m']), true) ==
              Step(Expected(frame, h, p, m'), None, m' == |frame|)
  {
    var n := Be16Value(frame[..2]);
    ExpectedInHeader(frame, h, p, m);
    HeaderRead(frame, m, m', n, true);
    AfterPrefixOnFrame(frame, h, content, p, m');
  }

  /** Before the header is stored, a read that delivers bytes runs all the
      stages on the longer buffer. */
  lemma HeaderRead(frame: seq<Byte>, m: nat, m': nat, n: nat, slotBound: bool)
    requires 2 <= m < m' <= |frame|
    ensures ReadStep(Inbound(frame[2..m], Some(n), None, None), Received(frame[m..m']), slotBound) ==
              Stages(Inbound(frame[2..m'], Some(n), None, None), slotBound)
  {
    assert frame[2..m] + frame[m..m'] == frame[2..m'];
  }

  lemma ReadInContent(frame: seq<Byte>, h: Json, content: seq<Byte>, p: Payload, m: nat, m': nat)
    requires 2 <= |frame| && Announces(h, content, p)
    requires |frame| == 2 + Be16Value(frame[..2]) + |content|
    requires frame[2 + Be16Value(frame[..2])..] == content
    requires 2 + Be16Value(frame[..2]) <= m < m' <= |frame|
    ensures ReadStep(Expected(frame, h, p, m), Received(frame[m..m']), true) ==
              Step(Expected(frame, h, p, m'), None, m' == |frame|)
  {
    ContentReadOnFrame(frame, h, p, m, m');
    AfterHeaderOnFrame(frame, h, content, p, m');
  }

  /** A read while the content is incomplete runs the payload stage on the
      longer slice of the frame. */
  lemma ContentReadOnFrame(frame: seq<Byte>, h: Json, p: Payload, m: nat, m': nat)
    requires 2 <= |frame| && 2 + Be16Value(frame[..2]) <= m < m' <= |frame|
    ensures var n := Be16Value(frame[..2]);
            ReadStep(Expected(frame, h, p, m), Received(frame[m..m']), true) ==
              PayloadStage(Inbound(frame[2 + n..m'], Some(n), Some(h), None), true)
  {
    var n := Be16Value(frame[..2]);
    ExpectedInContent(frame, h, p, m);
    assert frame[2 + n..m] + frame[m..m'] == frame[2 + n..m'];
    var joined := Inbound(frame[2 + n..m'], Some(n), Some(h), None);
    assert ProtoStage(joined) == joined && HeaderStage(joined) == Step(joined, None, false);
  }

  lemma ReadFromStart(frame: seq<Byte>, h: Json, content: seq<Byte>, p: Payload, m: nat, m': nat)
    requires Laid(frame, h, content) && Describes(h, content, p)
    requires m < 2 && m < m' <= |frame|
    ensures ReadStep(Expected(frame, h, p, m), Received(frame[m..m']), true) ==
              Step(Expected(frame, h, p, m'), None, m' == |frame|)
  {
    PrefixRead(frame, m, m', true);
    if m' >= 2 {
      AfterPrefixOnFrame(frame, h, content, p, m');
    }
  }

  /** A read while the two-byte prefix is incomplete: the stages wait, or
      decode the prefix and go on with the bytes after it. */
  lemma PrefixRead(frame: seq<Byte>, m: nat, m': nat, slotBound: bool)
    requires 2 <= |frame| && m < 2 && m < m' <= |frame|
    ensures ReadStep(Inbound(frame[..m], None, None, None), Received(frame[m..m']), slotBound) ==
              if m' < 2 then Step(Inbound(frame[..m'], None, None, None), None, false)
              else Stages(Inbound(frame[2..m'], Some(Be16Value(frame[..2])), None, None), slotBound)
  {
    var d1 := Inbound(frame[..m'], None, None, None);
    assert frame[..m] + frame[m..m'] == frame[..m'];
    if m' >= 2 {
      var d2 := Inbound(frame[2..m'], Some(Be16Value(frame[..2])), None, None);
      assert frame[..m'][..2] == frame[..2];
      assert frame[..m'][2..] == frame[2..m'];
      assert ProtoStage(d1) == d2 && ProtoStage(d2) == d2;
    }
  }

  lemma {:induction false} FeedRest(frame: seq<Byte>, h: Json, content: seq<Byte>, p: Payload,
                                    m: nat, chunks: seq<seq<Byte>>)
    requires Laid(frame, h, content) && Describes(h, content, p)
    requires m <= |frame| && Concat(chunks) == frame[m..]
    requires forall i :: 0 <= i < |chunks| ==> chunks[i] != []
    ensures Feed(Expected(frame, h, p, m), chunks, true) == Ok(Expected(frame, h, p, |frame|))
    decreases |chunks|
  {
    if chunks != [] {
      var m' := RestStep(frame, h, content, p, m, chunks);
      FeedRest(frame, h, content, p, m', chunks[1..]);
    }
  }

  /** One read of the chunking, from position m to the next position m'. */
  lemma RestStep(frame: seq<Byte>, h: Json, content: seq<Byte>, p: Payload,
                 m: nat, chunks: seq<seq<Byte>>) returns (m': nat)
    requires Laid(frame, h, content) && Describes(h, content, p)
    requires chunks != [] && m <= |frame| && Concat(chunks) == frame[m..]
    requires forall i :: 0 <= i < |chunks| ==> chunks[i] != []
    ensures m < m' <= |frame| && Concat(chunks[1..]) == frame[m'..]
    ensures Feed(Expected(frame, h, p, m), chunks, true) == Feed(Expected(frame, h, p, m'), chunks[1..], true)
  {
    m' := m + |chunks[0]|;
    ConcatHead(chunks, frame, m);
    ReadOnFrame(frame, h, content, p, m, m');
    var s := ReadStep(Expected(frame, h, p, m), Received(frame[m..m']), true);
    assert s.fault.None? && s.next == Expected(frame, h, p, m');
    FeedHead(Expected(frame, h, p, m), chunks, frame[m..m'], true);
  }

  /** The first chunk of a chunking of frame[m..] is the next slice of the
      frame, and the other chunks make up the rest. */
  lemma ConcatHead(chunks: seq<seq<Byte>>, frame: seq<Byte>, m: nat)
    requires chunks != [] && m <= |frame| && Concat(chunks) == frame[m..]
    ensures m + |chunks[0]| <= |frame|
    ensures frame[m..m + |chunks[0]|] == chunks[0]
    ensures Concat(chunks[1..]) == frame[m + |chunks[0]|..]
  {
    assert frame[m..] == chunks[0] + Concat(chunks[1..]);
  }

  /** Framing round trip: whatever the chunking of a frame _create_message
      built, reads from a fresh decoder end with the buffer empty, the header
      that was sent (hence its content type, encoding and length) and the
      content (decoded, for "text/json"). */
  lemma ChunkedRoundTrip(content: seq<Byte>, contentType: string, contentEncoding: string,
                         p: Payload, chunks: seq<seq<Byte>>)
    requires CreateMessage(content, contentType, contentEncoding).Ok?
    requires Carries(contentType, content, p)
    requires Concat(chunks) == CreateMessage(content, contentType, contentEncoding).value
    requires forall i :: 0 <= i < |chunks| ==> chunks[i] != []
    ensures Feed(Fresh, chunks, true) ==
              Ok(Inbound([], Some(|Encode(Header(contentType, contentEncoding, |content|))|),
                         Some(Header(contentType, contentEncoding, |content|)), Some(p)))
  {
    var h := Header(contentType, contentEncoding, |content|);
    var frame := CreateMessage(content, contentType, contentEncoding).value;
    HeaderDescribes(contentType, contentEncoding, content, p);
    assert Expected(frame, h, p, 0) == Fresh;
    FeedRest(frame, h, content, p, 0, chunks);
  }

  // ---- the client as written: the response attribute is never bound ----

  lemma AfterPrefixUnbound(frame: seq<Byte>, h: Json, content: seq<Byte>, p: Payload, m: nat)
    requires Laid(frame, h, content) && Describes(h, content, p)
    requires 2 <= m <= |frame|
    ensures var s := Stages(Inbound(frame[2..m], Some(Be16Value(frame[..2])), None, None), false);
            if m < 2 + Be16Value(frame[..2]) then s == Step(Expected(frame, h, p, m), None, false)
            else s.fault == Some(AttributeError)
  {
    var n := Be16Value(frame[..2]);
    if m < 2 + n {
      HeaderIncomplete(frame[2..m], n, h, false);
    } else {
      HeaderComplete(frame, h, m, false);
      assert PyTruthy(Some(h));
    }
  }

  lemma ReadUnbound(frame: seq<Byte>, h: Json, content: seq<Byte>, p: Payload, m: nat, m': nat)
    requires Laid(frame, h, content) && Describes(h, content, p)
    requires m < 2 + Be16Value(frame[..2]) && m < m' <= |frame|
    ensures var s := ReadStep(Expected(frame, h, p, m), Received(frame[m..m']), false);
            if m' < 2 + Be16Value(frame[..2]) then s == Step(Expected(frame, h, p, m'), None, false)
            else s.fault == Some(AttributeError)
  {
    if m < 2 {
      ReadUnboundFromStart(frame, h, content, p, m, m');
    } else {
      ExpectedInHeader(frame, h, p, m);
      HeaderRead(frame, m, m', Be16Value(frame[..2]), false);
      AfterPrefixUnbound(frame, h, content, p, m');
    }
  }

  lemma ReadUnboundFromStart(frame: seq<Byte>, h: Json, content: seq<Byte>, p: Payload, m: nat, m': nat)
    requires Laid(frame, h, content) && Describes(h, content, p)
    requires m < 2 && m < m' <= |frame|
    ensures var s := ReadStep(Expected(frame, h, p, m), Received(frame[m..m']), false);
            if m' < 2 + Be16Value(frame[..2]) then s == Step(Expected(frame, h, p, m'), None, false)
            else s.fault == Some(AttributeError)
  {
    PrefixRead(frame, m, m', false);
    if m' >= 2 {
      AfterPrefixUnbound(frame, h, content, p, m');
    }
  }

  lemma {:induction false} FeedUnbound(frame: seq<Byte>, h: Json, content: seq<Byte>, p: Payload,
                                       m: nat, chunks: seq<seq<Byte>>)
    requires Laid(frame, h, content) && Describes(h, content, p)
    requires m < 2 + Be16Value(frame[..2]) && Concat(chunks) == frame[m..]
    requires forall i :: 0 <= i < |chunks| ==> chunks[i] != []
    ensures Feed(Expected(frame, h, p, m), chunks, false) == Err(AttributeError)
    decreases |chunks|
  {
    var m' := UnboundStep(frame, h, content, p, m, chunks);
    if m' < 2 + Be16Value(frame[..2]) {
      FeedUnbound(frame, h, content, p, m', chunks[1..]);
    }
  }

  /** One read of the chunking: either the header is still incomplete at
      the next position m', and the rest of the reads start from there, or
      this read raises AttributeError. */
  lemma UnboundStep(frame: seq<Byte>, h: Json, content: seq<Byte>, p: Payload,
                    m: nat, chunks: seq<seq<Byte>>) returns (m': nat)
    requires Laid(frame, h, content) && Describes(h, content, p)
    requires m < 2 + Be16Value(frame[..2]) && Concat(chunks) == frame[m..]
    requires forall i :: 0 <= i < |chunks| ==> chunks[i] != []
    ensures chunks != [] && m < m' <= |frame| && Concat(chunks[1..]) == frame[m'..]
    ensures m' < 2 + Be16Value(frame[..2]) ==>
              Feed(Expected(frame, h, p, m), chunks, false) == Feed(Expected(frame, h, p, m'), chunks[1..], false)
    ensures m' >= 2 + Be16Value(frame[..2]) ==> Feed(Expected(frame, h, p, m), chunks, false) == Err(AttributeError)
  {
    assert chunks != [];
    m' := m + |chunks[0]|;
    ConcatHead(chunks, frame, m);
    ReadUnbound(frame, h, content, p, m, m');
    var d := Expected(frame, h, p, m);
    var s := ReadStep(d, Received(frame[m..m']), false);
    FeedHead(d, chunks, frame[m..m'], false);
    if m' < 2 + Be16Value(frame[..2]) {
      assert s.fault.None? && s.next == Expected(frame, h, p, m');
    } else {
      assert s.fault == Some(AttributeError);
    }
  }

  /** One step of Feed, whose first chunk is `data`. */
  lemma FeedHead(d: Inbound, chunks: seq<seq<Byte>>, data: seq<Byte>, slotBound: bool)
    requires chunks != [] && chunks[0] == data
    ensures var s := ReadStep(d, Received(data), slotBound);
            Feed(d, chunks, slotBound) ==
              if s.fault.Some? then Err(s.fault.value) else Feed(s.next, chunks[1..], slotBound)
  {
  }

  /** With the response attribute unbound (the constructor assigns
      `self.esponse`), every chunking of a well-formed response frame ends in
      AttributeError in the read that completes the header: the client never
      reaches the payload. */
  lemma UnboundSlotNeverCompletes(content: seq<Byte>, contentType: string, contentEncoding: string,
                                  p: Payload, chunks: seq<seq<Byte>>)
    requires CreateMessage(content, contentType, contentEncoding).Ok?
    requires Carries(contentType, content, p)
    requires Concat(chunks) == CreateMessage(content, contentType, contentEncoding).value
    requires forall i :: 0 <= i < |chunks| ==> chunks[i] != []
    ensures Feed(Fresh, chunks, false) == Err(AttributeError)
  {
    var h := Header(contentType, contentEncoding, |content|);
    var frame := CreateMessage(content, contentType, contentEncoding).value;
    HeaderDescribes(contentType, contentEncoding, content, p);
    assert Expected(frame, h, p, 0) == Fresh;
    FeedUnbound(frame, h, content, p, 0, chunks);
  }
}
