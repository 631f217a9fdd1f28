# 2D2FA in Dafny

A model of the 2D2FA two-device authentication scheme, with proofs about it.
A server shows a user a six-digit identifier. The user types it into an
authenticating device. The device derives a pin from the identifier, the
current 30-second time slice and its secret key:
`hmac_sha256(key, str((t // 30) ^ identifier))`. It sends the pin to the
server over a small framed socket protocol. The server grants the user when
the pin matches one of the five slices around its own clock.

The model covers both revisions of the repository: the older files at the
top level and the newer ones under `src/`. It has these modules:

- `Common`: bytes, `Option`/`Result`, the Python exceptions the code raises,
  Python's slice clamping, and the 2-byte big-endian length prefix.
- `Text`: `str(n)` for Python ints, `int(s)` for signed numerals, and `str.zfill`.
- `BitXor`: Python's `^` on unbounded ints, including negatives, with its
  algebra proved for non-negative operands.
- `Json`: the document type the peers exchange. It also holds a tagged binary
  serialisation, standing in for `json.dumps`/`json.load`, with its round trip
  proved.
- `PinEngine`:
  - the pin both devices generate;
  - `get_key`, `get_identifier` and `generate_identifier`;
  - the newer slice-based `check_pin` and the older raw-second `check_pin`, both
    as loops proved against their specifications.
- `Registry`: the server's `ident` and `auth` maps as a class. It holds
  `make_new_key`, the identifier issuance inside `/checkname`, the two expiry
  sweeps and the server tick. Both server revisions share this code.
- `Framing`:
  - `_create_message`;
  - the staged decoder (`process_protoheader`, `process_jsonheader`, and the
    common part of `process_request`/`process_response`) as functions on the
    decoder state;
  - the proof that any chunking of a frame decodes to what was sent.
- `ServerConnection`: the server's per-connection `Message` class, shared by
  both revisions. A `Revision` constant selects the revision's pin check.
- `ClientConnection`: `create_request` and the device's `Message` class.
- `Device`:
  - the host and port defaults;
  - the older device's fixed user and key;
  - the newer device's session globals and `id_process`.
- `Protocol`: end-to-end statements.
  - A device request, cut into chunks however the network delivers it,
    reaches the newer server as the `{user, pin}` document.
  - The newer server grants exactly when the pin check accepts.
  - A pin made from the identifier `/checkname` shows is granted within two
    slices.

The environment is passed in as parameters:

- HMAC-SHA256 (`mac`);
- the clock (`now`);
- the random draw behind `generate_identifier`;
- what each `recv` returns (`Recv`);
- how many bytes each `send` accepts (`Send`).

Each Python method that raises returns the exception as a `Fault` value
instead. Statements that refuse pins assume the HMAC is injective, and say so
in their `requires`.

Three points where the code and its documentation part ways. The model
follows the code in each:

- The comments describe a pin made with a wrong identifier as rejected. The
  check XORs the identifier with the slice, so flipping the identifier's low
  bit is the same as moving one slice. A pin made with `id ^ 1` (for an even
  id, `id + 1`) within one slice of the check is therefore accepted
  (`PinEngine.NeighbourIdentifierAccepted`). `test_pin_bad_id` (src/test.py)
  also changes the device key, so its rejection comes from the key and not
  from the identifier.
- "Authorized" on the `/checkname` page means only that the user is in
  `auth`. Whether the grant is still within `AUTH_TIMEOUT` depends on
  whether the tick has swept it yet.
- `process_jsonheader` consumes and stores the header before it checks the
  required keys. A header that fails the check is therefore left consumed
  when the exception propagates (`Framing.JsonHeaderStep`).

## Model

| member | source | states |
|---|---|---|
| Common.Be16 | src/serverutils.py:243 | `struct.pack(">H", n)` gives two bytes that denote n |
| Common.Be16OfValue | src/serverutils.py:348-354 | every 2-byte prefix is the packing of the value `struct.unpack` reads from it |
| Common.PyCut | src/serverutils.py:385-386 | the split point of `buf[:k]`/`buf[k:]`: k itself within the buffer, clamped to the end above it, counted from the end for a negative k |
| Text.ParseDecimal | src/device.py:209 | `int(str(n)) == n` for every int, negative ones included |
| Text.DecimalInjective | src/serverutils.py:99 | distinct ints render as distinct decimal strings, so the pin message determines `slice ^ identifier` |
| BitXor.XorNatCommutes | src/serverutils.py:99 | `a ^ b == b ^ a` on non-negative ints |
| BitXor.XorNatAssociates | src/serverutils.py:99 | `(a ^ b) ^ c == a ^ (b ^ c)` on non-negative ints |
| BitXor.XorNatCancel | src/serverutils.py:99 | `(a ^ c) ^ c == a` |
| BitXor.XorInjective | src/serverutils.py:99 | for a fixed identifier, distinct non-negative slices give distinct `slice ^ identifier` |
| BitXor.XorOne | src/serverutils.py:99 | `s ^ 1` is the other member of the pair {2k, 2k+1} |
| BitXor.XorMoveLowBit | src/serverutils.py:99 | `s ^ (i ^ 1) == (s ^ 1) ^ i` |
| Json.Get | src/serverutils.py:250-256 | `d.get(key)` finds a value exactly when some entry has the key, and the value is one of that key's entries |
| Json.GetLast | src/serverutils.py:250-256 | when a key repeats in the object json.load reads, `d.get(key)` is the value of its last entry |
| Json.GetPair | deviceutils.py:46 | both keys of a two-entry dict with distinct keys look up to their values |
| Json.DecodeEncode | src/serverutils.py:209-226 | decoding the serialisation of any document gives the document back |
| Json.EncodeInjective | src/serverutils.py:209-214 | distinct documents serialise to distinct bytes |
| PinEngine.GenerateIdentifier | src/serverutils.py:51-57 | the identifier is in [0, 999999], and it is the draw itself when the draw is in range |
| PinEngine.PinMessageDenotes | src/device.py:203-209 | the HMAC message is the decimal text of `(t // 30) ^ identifier`: parsing it gives back exactly that number |
| PinEngine.SameSliceSamePin | src/device.py:203-218 | two times in the same 30-second slice give the same pin |
| PinEngine.GetKey | src/serverutils.py:41-48 | `keys.get(user)`: the key exactly when the user is a string with a key, None otherwise |
| PinEngine.GetIdentifier | src/serverutils.py:60-68 | None exactly when the user has no binding, otherwise the binding's identifier |
| PinEngine.OldGetIdentifier | serverutils.py:37-39 | for a user without a binding `ident.get(user)[0]` raises TypeError; otherwise the binding's identifier |
| PinEngine.Window | src/serverutils.py:98 | the five slices tried are `now//30 - 2 .. now//30 + 2`, in ascending order |
| PinEngine.CheckPin | src/serverutils.py:71-116 | the loop's answer is "some slice within two of now matches". It returns False without hashing when the identifier or key is missing. It tries the slices in ascending order, stops at the first match, and tries all five when none matches |
| PinEngine.GeneratedPinAccepted | src/test.py:87-94 | a pin made with the bound identifier and the user's key is accepted at any time within two slices of when it was made |
| PinEngine.OutsideWindowRejected | src/serverutils.py:98-116 | the same pin three or more slices away, in either direction, is rejected (injective HMAC) |
| PinEngine.WrongKeyRejected | src/test.py:97-104 | a pin keyed with a different key than the user's is rejected at every time (injective HMAC) |
| PinEngine.NoIdentifierRejected | src/test.py:107-115 | a user without a binding is rejected whatever the pin |
| PinEngine.NeighbourIdentifierAccepted | src/test.py:118-126 | a pin made with `id ^ 1` within one slice of the check is accepted, so the identifier is not pinned down exactly |
| PinEngine.OldCheckPin | serverutils.py:43-73 | TypeError exactly for a user without a binding; False for a user without a key; otherwise True exactly when one of the 120 raw seconds now-60 .. now+59 matches |
| PinEngine.OldServerRejectsDevicePin | serverutils.py:57-58 | a pin the slice-based device made at t is rejected by the raw-second check at every now within 60 s of t (t >= 200, injective HMAC) |
| Registry.LiveAuth | src/server.py:164-170 | a sweep keeps exactly the grants made at or after the threshold, unchanged, and adds nothing |
| Registry.LiveIdent | src/server.py:179-183 | a sweep keeps exactly the identifiers issued at or after the threshold, unchanged, and adds nothing |
| Registry.Issuance | src/server.py:100-120 | an unknown user is "not found" and `ident` is untouched. "Authorized" is membership in `auth`. A binding issued after `now - IDENT_TIMEOUT + MIN_TIME` is shown again unchanged. Otherwise a fresh identifier issued now replaces only that user's entry |
| Registry.DisplayIdentifier | src/server.py:121 | `str(r_id).zfill(6)` is six digits that denote r_id |
| Registry.DisplayInjective | server.py:105 | distinct identifiers are displayed differently |
| Registry.IssuedOutlivesMinTime | src/server.py:109-120 | whatever `/checkname` shows is still bound at the identifier sweep of any time up to MIN_TIME seconds later |
| Registry.ReissueSame | server.py:93-104 | asking again at once shows the same identifier and changes nothing |
| Registry.SweepsShrinkAndSettle | src/server.py:166-183 | sweeps only remove entries, and a second sweep with the same threshold removes nothing more |
| Registry.Registry.constructor | src/server.py:59-66 | the registry starts with the loaded keys and empty `auth` and `ident` |
| Registry.Registry.MakeNewKey | src/server.py:133-141 | binds `[generate_identifier(), now]` to the user, returns the identifier, and changes no other entry (the older revision: server.py:119-123) |
| Registry.Registry.Issue | src/server.py:109-120 | the locked issuance block leaves exactly the report and the identifier map `Issuance` describes, and `auth` unchanged (the older revision: server.py:93-104) |
| Registry.Registry.TimeoutAuth | src/server.py:156-170 | the pop loop leaves `auth` equal to the sweep at `now - AUTH_TIMEOUT`, and `ident` unchanged (the older revision: server.py:137-144) |
| Registry.Registry.TimeoutId | src/server.py:173-183 | the pop loop leaves `ident` equal to the sweep at `now - IDENT_TIMEOUT`, and `auth` unchanged (the older revision: server.py:147-152) |
| Registry.Registry.Tick | src/server.py:222 | the tick as written expires authorizations and never identifiers (the older revision: server.py:183, which also calls only `timeout_auth`) |
| Registry.Registry.SweepingTick | src/server.py:173-183 | the tick with the identifier sweep: both maps are swept |
| Registry.ExpiredIdentifierStillAccepted | src/server.py:222 | with the tick as written, an identifier issued more than IDENT_TIMEOUT ago still validates the device's pin (the older revision's tick is the same: server.py:183) |
| Registry.SweptIdentifierRejected | src/server.py:179-183 | after the identifier sweep, no pin at all is accepted for a user whose identifier expired |
| Framing.CreateMessage | src/serverutils.py:228-245 | the frame is the prefix, the header with content-length = `len(content)`, then exactly the content; struct.error exactly when the serialised header exceeds 65535 bytes |
| Framing.Assemble | deviceutils.py:225-234 | prefix, serialised header and content laid end to end, with the prefix announcing the header's length |
| Framing.Py | src/serverutils.py:216-226 | a decoded `null` is Python's None, anything else the document itself |
| Framing.In | src/serverutils.py:369-375 | `key in h`: key membership for a dict, whether the key occurs as a substring of a str, TypeError for None, integers and bools (arrays are not represented, see Left out) |
| Framing.Lookup | src/serverutils.py:382-388 | `h[key]`: the value for a dict that has the key, KeyError for one that lacks it, TypeError for a non-dict |
| Framing.MissingRequired | src/serverutils.py:368-375 | the key check passes exactly when all four required keys are `in` the header |
| Framing.MissingRequiredNamesFirst | deviceutils.py:363-370 | for a dict header the exception names the first required key, in checking order, that is missing |
| Framing.MissingKeyRaises | src/serverutils.py:368-375 | a dict header lacking any one of the four keys raises the missing-header error |
| Framing.LengthValue | src/serverutils.py:382-383 | the content-length the comparison and slice use: an int itself, a bool as 0/1, TypeError for null and strings (floats are not represented, see Left out) |
| Framing.ProtoheaderStep | src/serverutils.py:348-354 | with two bytes buffered the length is read from them and they are consumed; otherwise nothing changes |
| Framing.JsonHeaderStep | src/serverutils.py:356-375 | nothing changes until the announced length is buffered. Then exactly those bytes are consumed and decoded, and a header stored without fault has all four required keys |
| Framing.JsonHeaderStepOutcomes | src/serverutils.py:356-375 | bytes that do not decode raise JSONDecodeError with nothing consumed; decoded bytes are consumed and the header stored before the required-key check, whose first missing key is the fault |
| Framing.PayloadStep | src/serverutils.py:377-391 | nothing changes until content-length bytes are buffered. Then exactly those bytes are consumed and stored decoded for "text/json", raw otherwise; the header and length are untouched |
| Framing.PayloadStepOutcomes | src/serverutils.py:377-391 | a missing or unusable content-length raises with nothing changed; a buffer shorter than content-length is left as it is; otherwise exactly the sliced bytes leave the buffer, the payload becomes their decoded document for "text/json" and the raw bytes otherwise, and a failure after the cut keeps the old payload |
| Framing.PayloadStage | deviceutils.py:275-277 | the payload stage runs only under a truthy header, and reading the unassigned response attribute raises AttributeError |
| Framing.ReadStep | src/serverutils.py:297-313 | a zero-byte recv raises "Peer closed." and changes nothing |
| Framing.ReadStepKeepsConsistent | src/serverutils.py:377-391 | every read keeps a stored payload under a dict header whose content type says how it was decoded |
| Framing.HeaderDescribes | src/serverutils.py:236-242 | the header `_create_message` builds passes the key check and announces the content's length, type and encoding |
| Framing.ChunkedRoundTrip | src/serverutils.py:297-313 | however a frame is cut into non-empty chunks, successive reads end with an empty buffer, the header that was sent, and the content (decoded for "text/json") |
| Framing.UnboundSlotNeverCompletes | deviceutils.py:148 | with the response attribute unbound, every chunking of a well-formed frame raises AttributeError and never yields the payload |
| ClientConnection.CreateRequest | deviceutils.py:27-47 | type "text/json", encoding "utf-8", and content a dict whose "user" and "pin" are the arguments |
| ClientConnection.RequestBytes | deviceutils.py:324-338 | the content is serialised only for "text/json" and passed through unchanged otherwise; TypeError when the content is of the wrong kind for its type |
| ClientConnection.RequestFrameLayout | deviceutils.py:339 | the queued frame is prefix, header and exactly the request's content bytes |
| ClientConnection.Message.constructor | deviceutils.py:139-148 | empty buffers, no stage done, request not queued, watching read and write; `response` initialised as evidently intended |
| ClientConnection.Message.AsWritten | deviceutils.py:148 | the same state, with `self.response` never assigned |
| ClientConnection.Message.QueueRequest | deviceutils.py:317-341 | appends exactly one frame and sets the queued flag; an exception leaves the buffer and the flag unchanged |
| ClientConnection.Message.WriteSocket | deviceutils.py:181-196 | removes exactly the bytes sent from the front of the buffer and never closes |
| ClientConnection.Message.Write | deviceutils.py:279-292 | queues only while not yet queued, then sends: the buffer left is `Remaining` of the old buffer (plus the new frame when it queued); interest becomes read exactly when the queued request has been sent in full |
| ClientConnection.Message.ReadSocket | deviceutils.py:164-179 | a chunk is appended; a zero-byte recv raises "Peer closed."; a blocked recv changes nothing |
| ClientConnection.Message.ProcessProtoheader | deviceutils.py:343-349 | the decoder moves as `ProtoheaderStep` says |
| ClientConnection.Message.ProcessJsonHeader | deviceutils.py:351-370 | the decoder moves, and raises, as `JsonHeaderStep` says |
| ClientConnection.Message.ProcessResponse | deviceutils.py:372-399 | the decoder moves as `PayloadStep` says. A completed JSON response that is not a dict raises AttributeError at `.get`. Otherwise a completed response closes the connection |
| ClientConnection.Message.RunStages | deviceutils.py:268-277 | the stages run in order and the first exception ends them |
| ClientConnection.Message.Read | deviceutils.py:261-277 | one read moves the decoder as `ReadStep` says, keeps it consistent, and closes exactly when a response completes without an exception |
| ServerConnection.ResultDoc | src/serverutils.py:262-266 | the reply document is a dict whose "result" is the message |
| ServerConnection.ContentBytes | src/serverutils.py:247-285 | a document's content bytes decode back to the document; raw content is sent as is |
| ServerConnection.EchoBytes | src/serverutils.py:275-285 | the echo is the bytes of the fixed prefix followed by exactly the first `min(10, len)` request bytes |
| ServerConnection.AcceptedUserIsString | src/serverutils.py:253-262 | only a string user with an identifier and a key can be accepted |
| ServerConnection.JsonResponseOutcomes | src/serverutils.py:247-273 | a non-dict request raises AttributeError; a request missing "user" or "pin" gets the invalid-action text; the older revision raises TypeError for a user without a binding; otherwise the reply is "Authorization granted." with a grant to that user exactly when the revision's check accepts, and "Authentication failed." with no grant otherwise (the older revision: serverutils.py:154-178) |
| ServerConnection.BinaryResponse | src/serverutils.py:275-285 | raw requests are echoed (prefix bytes, then the first `min(10, len)` request bytes) under the binary content type and encoding; slicing a decoded document onto bytes raises TypeError |
| ServerConnection.Message.constructor | src/serverutils.py:125-156 | empty buffers, no stage done, no response created, watching read |
| ServerConnection.Message.ReadSocket | src/serverutils.py:172-187 | a chunk is appended; a zero-byte recv raises "Peer closed."; a blocked recv changes nothing |
| ServerConnection.Message.ProcessProtoheader | src/serverutils.py:348-354 | the decoder moves as `ProtoheaderStep` says |
| ServerConnection.Message.ProcessJsonHeader | src/serverutils.py:356-375 | the decoder moves, and raises, as `JsonHeaderStep` says |
| ServerConnection.Message.ProcessRequest | src/serverutils.py:377-400 | the decoder moves as `PayloadStep` says, and interest switches to write exactly when the request completes |
| ServerConnection.Message.RunStages | src/serverutils.py:303-313 | the stages run in order and the first exception ends them |
| ServerConnection.Message.Read | src/serverutils.py:297-313 | one read moves the decoder as `ReadStep` says, keeps it consistent, and switches to writing exactly when a request completes (the older revision: serverutils.py:195-207) |
| ServerConnection.Message.WriteSocket | src/serverutils.py:189-207 | removes exactly the bytes sent from the front, and closes once a send that moved bytes empties the buffer (the older revision: serverutils.py:113-127) |
| ServerConnection.Message.JsonContent | src/serverutils.py:247-273 | the reply is `JsonResponse` of the request at the check's clock reading, and `auth[user]` is set to the later reading `grantedAt` exactly when it grants |
| ServerConnection.Message.BuildReply | src/serverutils.py:402-409 | the JSON or the binary reply, chosen by the stored content type |
| ServerConnection.Message.CreateResponse | src/serverutils.py:402-415 | the frame of the reply is appended and the response marked created; an exception leaves the send side unchanged (the older revision: serverutils.py:280-288) |
| ServerConnection.Message.Write | src/serverutils.py:315-324 | a response is created at most once: once created, or while the request is not truthy, a write only drains the buffer as `Drained` says and never touches `auth`; otherwise a failed reply or frame leaves the send side and the flag unchanged, and a good one is appended, drained and marked created, with the grant recorded in `auth` |
| Device.SetHost | src/device.py:166-178 | "" selects 127.0.0.1 and any other text is the host itself (the older revision: device.py:63-74) |
| Device.SetPort | src/device.py:181-194 | "" selects 4444; any other text is `int(text)`, and ValueError when it is not a numeral (the older revision: device.py:77-89) |
| Device.SetPortReadsDecimal | device.py:89 | typing the decimal text of a number selects that port |
| Device.SetPortRejectsNonDigit | device.py:89 | in the model's ASCII-digit parse, text with a non-digit after its first character raises ValueError |
| Device.OldPinSameSlice | device.py:98-113 | the older device's pin changes only from one slice to the next |
| Device.OldDevicePinAccepted | device.py:105 | the older device's fixed-key pin for "test_user" is accepted by the slice-based check exactly when the server holds "test_key" for that user |
| Device.PyIndex | src/device.py:119 | `keys[index]` reads a position inside the list: from the front for 0 <= index < n, from the back for -n <= index < 0; IndexError otherwise |
| Device.Session.constructor | src/device.py:37-41 | the module's start-up values of host, port, user and key |
| Device.Session.IdProcess | src/device.py:118-127 | host, port, user and key become the entry's address, port, user and key, assigned in that order; a failing lookup stops there, and an index outside the list changes nothing |
| Device.Session.Pin | src/device.py:197-218 | the pin is `GeneratePin` of the session key, the identifier and the time; AttributeError when that key is not a string |
| Protocol.RequestArrives | deviceutils.py:317-341 | however the device's request frame is chunked, the server's decoder ends with an empty buffer, a "text/json" header, and the `{user, pin}` document |
| Protocol.DeviceRequestDecided | src/serverutils.py:247-273 | the newer server grants the device's request exactly when the slice-based check accepts its pin |
| Protocol.NewerServerDecides | src/serverutils.py:402-415 | the same decision for the request frame, however it is chunked |
| Protocol.FreshIdentifierGranted | src/test.py:87-94 | after `make_new_key`, a pin made with the user's key within two slices of the check is granted |
| Protocol.ShownIdentifierGranted | src/server.py:109-121 | a pin made from the identifier `/checkname` shows is accepted within two slices |
| Protocol.StalePinRefused | src/serverutils.py:98-116 | a pin made three or more slices away from the check is refused, whatever the chunking |
| Protocol.WrongDeviceKeyRefused | src/test.py:97-104 | a device holding the wrong key is refused at every time, whatever the chunking |

## Left out

- Sockets, the selector and the reactor loops (`accept_wrapper`, `auth_listen`, `start_connection`, `send_message`, `process_events`) are I/O. Only their effect is modelled: what each recv delivers, how much each send accepts, the `interest` field, and a `closed` flag that stands for `close()`.
- `close()` is modelled as the `closed` flag only. Its handling of exceptions from unregister and socket close is I/O.
- The exception handler in `auth_listen` is not modelled. It closes the connection on any exception; a method that returns a `Fault` stands for that.
- `recv(4096)`: the 4096-byte cap is not modelled. A `Recv` is any chunk, so the statements cover every cap.
- HMAC-SHA256 is a parameter (`mac`). Rejection statements assume it is injective.
- `json.dumps`/`json.load` and `io.TextIOWrapper` are replaced by a tagged binary codec with a proved round trip. The document type covers null, booleans, integers and strings, and flat objects of these, which is all the peers exchange. Text encodings are not interpreted: the "utf-8" names are carried but unused.
- Json, Framing.LengthValue, Framing.In: JSON floats and arrays are not represented, so a received header holding one is outside the model. In the program a float content-length compares without error (src/serverutils.py:383), so a short buffer waits and a full one raises TypeError at the slice (src/serverutils.py:385); an array header passes the required-key check by list membership (src/serverutils.py:375) and then raises TypeError at `h["content-length"]` (src/serverutils.py:382).
- Framing.CreateMessage: the struct.error condition is stated for the stand-in serialisation, so the exact 65535-byte boundary differs from that of real JSON text.
- Protocol.RequestArrives: assumes the device's frame can be built, that is, that its header serialises within 65535 bytes.
- `time.time()`, `secrets.randbelow` and `random.randint` are parameters. A single `now` is used where `checkname` and `make_new_key` each read the clock. The pin check and the grant in `_create_response_json_content` read the clock separately (src/serverutils.py:78 and 260) and are two parameters, `now` and `grantedAt`.
- Locks and threads: each locked registry block is one method that runs atomically.
- Flask routes and HTML (`index`, `name_request_text`, the page text of `checkname`, `enter_id`, `do_auth`, `selection_menu`) are UI. The issuance logic and the six-digit display are modelled.
- `load_keylist`, `get_keys`, and the `input()` calls behind `get_identifier`, `set_host` and `set_port` are file and console I/O. The typed text is a parameter of `SetHost`/`SetPort`.
- The device's `get_identifier` is `int(input(...))`. It is the same parse as `SetPort` without the default, so it has no member of its own.
- Device.SetPort: Python's `int()` also accepts surrounding whitespace, underscores between digits and non-ASCII digits. The model accepts only an optionally signed run of ASCII digits and raises ValueError for everything else.
- `auth_process` only calls `generate_pin` and `send_message` (I/O).
- `_process_response_json_content` and `_process_response_binary_content` only print. The `.get` in the JSON one is modelled by the AttributeError it raises on a non-dict.
- `_set_selector_events_mask` is the `interest` field. Its ValueError for an unknown mode cannot occur, because every call passes a valid mode.
- `print`, `DEBUG` output and `traceback` formatting are not modelled.
- The older `server.py` defines `user_ident_thread` twice. Its first definition is a console loop, and the second replaces it. Neither is modelled (console I/O).
- `test.py` is evidence for statements, not a model target.
- PinEngine.GenerateIdentifier: the distribution of the random draw is not modelled. Only the range is.

## Findings

| source | as written | input that shows it | evidently intended | confidence | as-written member | corrected member |
|---|---|---|---|---|---|---|
| serverutils.py:57-58 | the older `check_pin` XORs each raw second of now-60 .. now+59 with the identifier | a pin the older device made at any t >= 200, checked within 60 s of t: the device hashed t // 30, which no raw second in the window equals | hash the slices t//30-2 .. t//30+2, as the device does and as src/serverutils.py:98-99 does | high; not executed | PinEngine.OldServerRejectsDevicePin | PinEngine.GeneratedPinAccepted |
| src/server.py:222 | the tick calls only `timeout_auth`; `timeout_id` is never called (the older server.py:183 likewise) | an identifier issued at time 0 and a device pin made at now = 1000 with it: still accepted | identifiers expire IDENT_TIMEOUT seconds after issue | high; not executed | Registry.ExpiredIdentifierStillAccepted | Registry.SweptIdentifierRejected |
| deviceutils.py:148 | the constructor assigns `self.esponse = None`, so `self.response` is unset when `read` tests it at line 276 | any well-formed response frame, in any chunking: the read that completes the header raises AttributeError | initialise `self.response = None` | high; not executed | Framing.UnboundSlotNeverCompletes | Framing.ChunkedRoundTrip |
| serverutils.py:39 | `ident.get(user)[0]` subscripts None for a user without a binding | a pin request for a user with no identifier: TypeError instead of a rejection | return None, so that the `identifier is None` test at line 50 rejects the pin | high; not executed | PinEngine.OldGetIdentifier | PinEngine.NoIdentifierRejected |
