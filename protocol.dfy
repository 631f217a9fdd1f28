/** The exchange end to end: the device's request frame, cut into chunks
    however the network delivers it, reaches the server's decoder as the
    device's {user, pin} document, and the newer server's reply grants the
    user exactly when the slice-based check accepts the pin. With the
    identifier that make_new_key or /checkname bound, a pin made with the
    user's key within two slices of the check is granted, and one made
    further away is refused. */
module Protocol {
  import opened Common
  import opened Json
  import opened Framing
  import opened PinEngine
  import opened Registry
  import opened ServerConnection
  import opened ClientConnection

  /** The conditions under which `chunks` carry the device's request: the
      frame exists, and the chunks are non-empty and concatenate to it. */
  ghost predicate Delivers(chunks: seq<seq<Byte>>, user: string, pin: string)
  {
    RequestFrame(CreateRequest(user, pin)).Ok? &&
    Concat(chunks) == RequestFrame(CreateRequest(user, pin)).value &&
    forall i :: 0 <= i < |chunks| ==> chunks[i] != []
  }

  /** Fed the device's request frame, the server's decoder ends with an
      empty buffer, a header whose content type is "text/json", and the
      request document as its payload. */
  lemma RequestArrives(user: string, pin: string, chunks: seq<seq<Byte>>)
    requires Delivers(chunks, user, pin)
    ensures Feed(Fresh, chunks, true).Ok?
    ensures var d := Feed(Fresh, chunks, true).value;
            d.buffer == [] && d.header.Some? &&
            Lookup(d.header.value, "content-type") == Ok(Str(JsonContentType)) &&
            d.payload == Some(CreateRequest(user, pin).content)
  {
    var req := CreateRequest(user, pin);
    var content := RequestBytes(req).value;
    assert Carries(JsonContentType, content, req.content);
    ChunkedRoundTrip(content, JsonContentType, "utf-8", req.content, chunks);
    var h := Header(JsonContentType, "utf-8", |content|);
    HeaderDescribes(JsonContentType, "utf-8", content, req.content);
    assert Lookup(h, "content-type").value.s == JsonContentType;
  }

  /** The newer server's answer to a request document from the device
      under a "text/json" header: "Authorization granted." with a grant to
      that user when the slice-based check accepts the pin, and
      "Authentication failed." with no grant when it does not. */
  lemma DeviceRequestDecided(mac: Mac, user: string, pin: string, h: Json,
                             ident: map<string, Binding>, keys: map<string, string>, now: int)
    requires Lookup(h, "content-type") == Ok(Str(JsonContentType))
    ensures ResponseFor(Newer, mac, Some(h), CreateRequest(user, pin).content, ident, keys, now)
            == if PinAccepted(mac, Str(user), Str(pin), ident, keys, now)
               then Ok(JsonReply(Granted, Some(user)))
               else Ok(JsonReply(Failed, None))
  {
    var req := CreateRequest(user, pin);
    var fs := req.content.doc.fields;
    assert Get(fs, "user") == Some(Str(user)) && Get(fs, "pin") == Some(Str(pin));
    assert ResponseFor(Newer, mac, Some(h), req.content, ident, keys, now)
        == JsonResponse(Newer, mac, req.content, ident, keys, now);
  }

  /** The same answer for the device's request frame however it is cut
      into chunks. */
  lemma NewerServerDecides(mac: Mac, user: string, pin: string, chunks: seq<seq<Byte>>,
                           ident: map<string, Binding>, keys: map<string, string>, now: int)
    requires Delivers(chunks, user, pin)
    ensures Feed(Fresh, chunks, true).Ok? && Feed(Fresh, chunks, true).value.payload.Some?
    ensures var d := Feed(Fresh, chunks, true).value;
            var r := ResponseFor(Newer, mac, d.header, d.payload.value, ident, keys, now);
            r == if PinAccepted(mac, Str(user), Str(pin), ident, keys, now)
                 then Ok(JsonReply(Granted, Some(user)))
                 else Ok(JsonReply(Failed, None))
  {
    RequestArrives(user, pin, chunks);
    var d := Feed(Fresh, chunks, true).value;
    DeviceRequestDecided(mac, user, pin, d.header.value, ident, keys, now);
  }

  /** test_pin: after make_new_key binds a fresh identifier to the user, a
      pin the device makes from it with the user's key at time t is granted
      at any time now within two slices of t. */
  lemma FreshIdentifierGranted(mac: Mac, keys: map<string, string>, ident: map<string, Binding>,
                               user: string, draw: nat, issuedAt: int, t: int, now: int,
                               chunks: seq<seq<Byte>>)
    requires user in keys
    requires -2 <= Slice(t) - Slice(now) <= 2
    requires Delivers(chunks, user, GeneratePin(mac, keys[user], GenerateIdentifier(draw), t))
    ensures Feed(Fresh, chunks, true).Ok? && Feed(Fresh, chunks, true).value.payload.Some?
    ensures var d := Feed(Fresh, chunks, true).value;
            ResponseFor(Newer, mac, d.header, d.payload.value,
                        ident[user := Binding(GenerateIdentifier(draw), issuedAt)], keys, now)
              == Ok(JsonReply(Granted, Some(user)))
  {
    var ident' := ident[user := Binding(GenerateIdentifier(draw), issuedAt)];
    var pin := GeneratePin(mac, keys[user], GenerateIdentifier(draw), t);
    GeneratedPinAccepted(mac, user, ident', keys, t, now);
    NewerServerDecides(mac, user, pin, chunks, ident', keys, now);
  }

  /** The identifier /checkname shows can be typed into the device: a pin
      made from it with the user's key within two slices of the check is
      granted against the identifier map /checkname leaves behind. */
  lemma ShownIdentifierGranted(mac: Mac, keys: map<string, string>, auth: map<string, int>,
                               ident: map<string, Binding>, user: string, shownAt: int, draw: nat,
                               t: int, now: int)
    requires user in keys
    requires -2 <= Slice(t) - Slice(now) <= 2
    ensures var r := Issuance(keys, auth, ident, user, shownAt, draw);
            r.0.Issued? &&
            PinAccepted(mac, Str(user), Str(GeneratePin(mac, keys[user], r.0.id, t)), r.1, keys, now)
  {
    var r := Issuance(keys, auth, ident, user, shownAt, draw);
    GeneratedPinAccepted(mac, user, r.1, keys, t, now);
  }

  /** A pin made three or more slices away from the check is refused
      (assuming the HMAC is injective), whatever the chunking. */
  lemma StalePinRefused(mac: Mac, user: string, chunks: seq<seq<Byte>>,
                        ident: map<string, Binding>, keys: map<string, string>, t: int, now: int)
    requires Injective(mac)
    requires user in ident && user in keys
    requires t >= 0 && now >= 0
    requires Slice(t) - Slice(now) >= 3 || Slice(now) - Slice(t) >= 3
    requires Delivers(chunks, user, GeneratePin(mac, keys[user], ident[user].id, t))
    ensures Feed(Fresh, chunks, true).Ok? && Feed(Fresh, chunks, true).value.payload.Some?
    ensures var d := Feed(Fresh, chunks, true).value;
            ResponseFor(Newer, mac, d.header, d.payload.value, ident, keys, now)
              == Ok(JsonReply(Failed, None))
  {
    var pin := GeneratePin(mac, keys[user], ident[user].id, t);
    OutsideWindowRejected(mac, user, ident, keys, t, now);
    NewerServerDecides(mac, user, pin, chunks, ident, keys, now);
  }

  /** test_bad_pin: a device holding a key other than the server's for the
      user is refused at any time (assuming the HMAC is injective). */
  lemma WrongDeviceKeyRefused(mac: Mac, user: string, deviceKey: string, identifier: int,
                              chunks: seq<seq<Byte>>, ident: map<string, Binding>,
                              keys: map<string, string>, t: int, now: int)
    requires Injective(mac)
    requires user in keys && deviceKey != keys[user]
    requires Delivers(chunks, user, GeneratePin(mac, deviceKey, identifier, t))
    ensures Feed(Fresh, chunks, true).Ok? && Feed(Fresh, chunks, true).value.payload.Some?
    ensures var d := Feed(Fresh, chunks, true).value;
            ResponseFor(Newer, mac, d.header, d.payload.value, ident, keys, now)
              == Ok(JsonReply(Failed, None))
  {
    var pin := GeneratePin(mac, deviceKey, identifier, t);
    WrongKeyRejected(mac, user, deviceKey, identifier, ident, keys, t, now);
    NewerServerDecides(mac, user, pin, chunks, ident, keys, now);
  }
}
