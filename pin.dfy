/** The time-windowed PIN: how the device derives it (src/device.py,
    device.py) and how both server revisions check it (src/serverutils.py,
    serverutils.py).

    HMAC-SHA256 is not modelled; every operation takes it as a parameter
    `mac`, standing for key, message |-> hmac.new(key, msg, sha256).hexdigest().
    The only property of it ever used is injectivity, and only by the lemmas
    that say which pins are rejected, each of which asks for it. */
module PinEngine {
  import opened Common
  import opened Text
  import opened Json
  import opened BitXor

  type Mac = (string, string) -> string

  /** HMAC-SHA256 has no collisions on the inputs at hand. */
  ghost predicate Injective(mac: Mac)
  {
    forall k1, m1, k2, m2 :: mac(k1, m1) == mac(k2, m2) ==> k1 == k2 && m1 == m2
  }

  /** TIME_SLICE: seconds per slice. */
  const TimeSlice: nat := 30

  /** generate_identifier draws below this bound in both revisions. */
  const IdentifierBound: nat := 1_000_000

  type Identifier = n: int | 0 <= n < IdentifierBound

  /** The value stored in `ident[user]`: [identifier, time it was issued]. */
  datatype Binding = Binding(id: Identifier, issuedAt: int)

  /** generate_identifier: secrets.randbelow(1_000_000) in the newer server,
      random.randint(0, 999_999) in the older one. The random draw is the
      parameter; the source's contract is only the range. */
  function GenerateIdentifier(draw: nat): (id: int)
    ensures 0 <= id <= 999_999
    ensures draw <= 999_999 ==> id == draw
  {
    draw % IdentifierBound
  }

  /** time_now_s // TIME_SLICE; for a positive divisor Python's floor
      division and Dafny's Euclidean division agree. */
  function Slice(now: int): int
  {
    now / TimeSlice
  }

  /** str(time_slice ^ identifier): the message the HMAC is keyed over. */
  function PinMessage(slice: int, identifier: int): string
  {
    Decimal(Xor(slice, identifier))
  }

  /** generate_pin at time `now`, keyed by the device's session key. */
  function GeneratePin(mac: Mac, key: string, identifier: int, now: int): string
  {
    mac(key, PinMessage(Slice(now), identifier))
  }

  /** The HMAC message is the decimal text of (now // 30) ^ identifier:
      parsing it back gives exactly that number. */
  lemma PinMessageDenotes(now: int, identifier: int)
    ensures AllDigits(PinMessage(Slice(now), identifier)) || PinMessage(Slice(now), identifier)[0] == '-'
    ensures ParseInt(PinMessage(Slice(now), identifier)) == Ok(Xor(now / 30, identifier))
  {
    ParseDecimal(Xor(now / 30, identifier));
  }

  /** The pin depends on the time only through its 30-second slice. */
  lemma SameSliceSamePin(mac: Mac, key: string, identifier: int, k: int, t1: int, t2: int)
    requires TimeSlice * k <= t1 < TimeSlice * (k + 1)
    requires TimeSlice * k <= t2 < TimeSlice * (k + 1)
    ensures GeneratePin(mac, key, identifier, t1) == GeneratePin(mac, key, identifier, t2)
    ensures Slice(t1) == k
  {
    SliceOf(k, t1);
    SliceOf(k, t2);
  }

  lemma SliceOf(k: int, t: int)
    requires TimeSlice * k <= t < TimeSlice * (k + 1)
    ensures Slice(t) == k
  {
    var r := t - TimeSlice * k;
    assert t == TimeSlice * k + r && 0 <= r < TimeSlice;
  }

  // ---- lookups (src/serverutils.py and serverutils.py) ----

  /** get_key: keys.get(user). The table maps user names to keys; a request
      whose "user" is not a string never finds a key. */
  function GetKey(user: Scalar, keys: map<string, string>): (k: Option<string>)
    ensures k.Some? <==> user.Str? && user.s in keys
    ensures k.Some? ==> k.value == keys[user.s]
  {
    if user.Str? && user.s in keys then Some(keys[user.s]) else None
  }

  /** get_identifier (newer): None for a user without a binding, otherwise
      the binding's identifier. */
  function GetIdentifier(user: Scalar, ident: map<string, Binding>): (id: Option<Identifier>)
    ensures id.None? <==> !(user.Str? && user.s in ident)
    ensures id.Some? ==> id.value == ident[user.s].id
  {
    if user.Str? && user.s in ident then Some(ident[user.s].id) else None
  }

  /** get_identifier (older): `ident.get(user)[0]` subscripts None for a user
      without a binding, which raises TypeError. */
  function OldGetIdentifier(user: Scalar, ident: map<string, Binding>): (id: Result<Identifier>)
    ensures id.Err? <==> !(user.Str? && user.s in ident)
    ensures id.Err? ==> id.fault == TypeError
    ensures id.Ok? ==> id.value == ident[user.s].id
  {
    if user.Str? && user.s in ident then Ok(ident[user.s].id) else Err(TypeError)
  }

  // ---- the newer check: five slices around now ----

  /** The slices check_pin tries, in the order it tries them. */
  function Window(now: int): (w: seq<int>)
    ensures |w| == 5
    ensures forall i :: 0 <= i < 5 ==> w[i] == Slice(now) - 2 + i
  {
    [Slice(now) - 2, Slice(now) - 1, Slice(now), Slice(now) + 1, Slice(now) + 2]
  }

  /** The pin equals the digest for slice s under the user's bound identifier
      and key (both must exist). `h.hexdigest() == pin` is Python equality, so
      a pin that is not a string never matches. */
  predicate Matches(mac: Mac, user: Scalar, pin: Scalar, ident: map<string, Binding>,
                    keys: map<string, string>, s: int)
  {
    GetIdentifier(user, ident).Some? && GetKey(user, keys).Some? &&
    pin == Str(mac(GetKey(user, keys).value, PinMessage(s, GetIdentifier(user, ident).value)))
  }

  /** What check_pin decides: some slice within two of now's matches. */
  ghost predicate PinAccepted(mac: Mac, user: Scalar, pin: Scalar, ident: map<string, Binding>,
                        keys: map<string, string>, now: int)
  {
    exists s :: Slice(now) - 2 <= s <= Slice(now) + 2 && Matches(mac, user, pin, ident, keys, s)
  }

  /** check_pin (newer). `tried` records the slices hashed, in order: none
      when the identifier or key is missing, the five of the window when no
      slice matches, and otherwise the window up to the first match. */
  method CheckPin(mac: Mac, user: Scalar, pin: Scalar, ident: map<string, Binding>,
                  keys: map<string, string>, now: int)
    returns (accepted: bool, ghost tried: seq<int>)
    ensures accepted == PinAccepted(mac, user, pin, ident, keys, now)
    ensures |tried| <= 5 && tried == Window(now)[..|tried|]
    ensures GetIdentifier(user, ident).None? || GetKey(user, keys).None? ==> !accepted && tried == []
    ensures accepted ==> tried != [] && Matches(mac, user, pin, ident, keys, tried[|tried| - 1])
    ensures forall i :: 0 <= i < |tried| - 1 ==> !Matches(mac, user, pin, ident, keys, tried[i])
    ensures !accepted && GetIdentifier(user, ident).Some? && GetKey(user, keys).Some? ==>
              tried == Window(now)
  {
    var timeSlice := now / TimeSlice;
    tried := [];
    var identifier := GetIdentifier(user, ident);
    if identifier.None? {
      return false, tried;
    }
    var key := GetKey(user, keys);
    if key.None? {
      return false, tried;
    }
    var t := timeSlice - 2;
    while t < timeSlice + 3
      invariant timeSlice - 2 <= t <= timeSlice + 3
      invariant tried == Window(now)[..t - (timeSlice - 2)]
      invariant forall s :: timeSlice - 2 <= s < t ==> !Matches(mac, user, pin, ident, keys, s)
    {
      var msg := PinMessage(t, identifier.value);
      var h := mac(key.value, msg);
      tried := tried + [t];
      if Str(h) == pin {
        assert Matches(mac, user, pin, ident, keys, t);
        return true, tried;
      }
      t := t + 1;
    }
    return false, tried;
  }

  /** A pin the device generated with the bound identifier and key is
      accepted at any time within two slices of the time it was generated. */
  lemma GeneratedPinAccepted(mac: Mac, user: string, ident: map<string, Binding>,
                             keys: map<string, string>, t: int, now: int)
    requires user in ident && user in keys
    requires -2 <= Slice(t) - Slice(now) <= 2
    ensures PinAccepted(mac, Str(user), Str(GeneratePin(mac, keys[user], ident[user].id, t)),
                        ident, keys, now)
  {
    assert Matches(mac, Str(user), Str(GeneratePin(mac, keys[user], ident[user].id, t)),
                   ident, keys, Slice(t));
  }

  /** Three or more slices away the same pin is rejected, in either direction
      (times are non-negative, as time.time() is). */
  lemma OutsideWindowRejected(mac: Mac, user: string, ident: map<string, Binding>,
                              keys: map<string, string>, t: int, now: int)
    requires Injective(mac)
    requires user in ident && user in keys
    requires t >= 0 && now >= 0
    requires Slice(t) - Slice(now) >= 3 || Slice(now) - Slice(t) >= 3
    ensures !PinAccepted(mac, Str(user), Str(GeneratePin(mac, keys[user], ident[user].id, t)),
                         ident, keys, now)
  {
    var id := ident[user].id;
    var pin := Str(GeneratePin(mac, keys[user], id, t));
    forall s | Slice(now) - 2 <= s <= Slice(now) + 2
      ensures !Matches(mac, Str(user), pin, ident, keys, s)
    {
      if Matches(mac, Str(user), pin, ident, keys, s) {
        DecimalInjective(Xor(s, id), Xor(Slice(t), id));
        if s >= 0 {
          XorInjective(s, Slice(t), id);
        }
      }
    }
  }

  /** A pin keyed with a different key than the user's is rejected at every
      time. */
  lemma WrongKeyRejected(mac: Mac, user: string, deviceKey: string, identifier: int,
                         ident: map<string, Binding>, keys: map<string, string>, t: int, now: int)
    requires Injective(mac)
    requires user in keys && deviceKey != keys[user]
    ensures !PinAccepted(mac, Str(user), Str(GeneratePin(mac, deviceKey, identifier, t)),
                         ident, keys, now)
  {
    var pin := Str(GeneratePin(mac, deviceKey, identifier, t));
    forall s | Slice(now) - 2 <= s <= Slice(now) + 2
      ensures !Matches(mac, Str(user), pin, ident, keys, s)
    {
    }
  }

  /** A user without a binding is rejected whatever the pin. */
  lemma NoIdentifierRejected(mac: Mac, user: string, pin: Scalar, ident: map<string, Binding>,
                             keys: map<string, string>, now: int)
    requires user !in ident
    ensures !PinAccepted(mac, Str(user), pin, ident, keys, now)
  {
  }

  /** The check does not pin down the identifier: a pin made with the bound
      identifier with its low bit flipped (id ^ 1, which is id + 1 for an even
      id) is accepted when it was made within one slice of the check, because
      s ^ (id ^ 1) == (s ^ 1) ^ id and s ^ 1 is a neighbouring slice. */
  lemma NeighbourIdentifierAccepted(mac: Mac, user: string, ident: map<string, Binding>,
                                    keys: map<string, string>, t: int, now: int)
    requires user in ident && user in keys
    requires t >= 0
    requires -1 <= Slice(t) - Slice(now) <= 1
    ensures PinAccepted(mac, Str(user), Str(GeneratePin(mac, keys[user], Xor(ident[user].id, 1), t)),
                        ident, keys, now)
  {
    var id := ident[user].id;
    var s := Slice(t);
    XorMoveLowBit(s, id);
    XorOne(s);
    var neighbour := Xor(s, 1);
    assert PinMessage(s, Xor(id, 1)) == PinMessage(neighbour, id);
    assert Matches(mac, Str(user), Str(GeneratePin(mac, keys[user], Xor(id, 1), t)),
                   ident, keys, neighbour);
  }

  // ---- the older check: 120 raw seconds around now ----

  /** The older loop hashes the raw second t, not its slice. */
  predicate OldMatches(mac: Mac, user: Scalar, pin: Scalar, ident: map<string, Binding>,
                       keys: map<string, string>, t: int)
  {
    OldGetIdentifier(user, ident).Ok? && GetKey(user, keys).Some? &&
    pin == Str(mac(GetKey(user, keys).value, PinMessage(t, OldGetIdentifier(user, ident).value)))
  }

  ghost predicate OldPinAccepted(mac: Mac, user: Scalar, pin: Scalar, ident: map<string, Binding>,
                           keys: map<string, string>, now: int)
  {
    exists t :: now - 2 * TimeSlice <= t < now + 2 * TimeSlice && OldMatches(mac, user, pin, ident, keys, t)
  }

  /** check_pin (older): raises for a user without a binding, rejects a user
      without a key, and otherwise tries the 120 seconds now-60 .. now+59 in
      order. */
  method OldCheckPin(mac: Mac, user: Scalar, pin: Scalar, ident: map<string, Binding>,
                     keys: map<string, string>, now: int)
    returns (r: Result<bool>)
    ensures r.Err? <==> OldGetIdentifier(user, ident).Err?
    ensures r.Err? ==> r.fault == TypeError
    ensures r.Ok? ==> r.value == OldPinAccepted(mac, user, pin, ident, keys, now)
    ensures r.Ok? && GetKey(user, keys).None? ==> !r.value
  {
    var identifier := OldGetIdentifier(user, ident);
    if identifier.Err? {
      return Err(identifier.fault);
    }
    var key := GetKey(user, keys);
    if key.None? {
      return Ok(false);
    }
    var t := now - 2 * TimeSlice;
    while t < now + 2 * TimeSlice
      invariant now - 2 * TimeSlice <= t <= now + 2 * TimeSlice
      invariant forall u :: now - 2 * TimeSlice <= u < t ==> !OldMatches(mac, user, pin, ident, keys, u)
    {
      var h := mac(key.value, PinMessage(t, identifier.value));
      if Str(h) == pin {
        assert OldMatches(mac, user, pin, ident, keys, t);
        return Ok(true);
      }
      t := t + 1;
    }
    return Ok(false);
  }

  /** The older pair does not interoperate: the older device hashes the slice
      t // 30, the older server hashes raw seconds within 60 of now, and for
      any realistic time those never meet. So a pin the older device made at t
      is rejected by the older server at every now within 60 seconds of t. */
  lemma OldServerRejectsDevicePin(mac: Mac, user: string, ident: map<string, Binding>,
                                  keys: map<string, string>, t: int, now: int)
    requires Injective(mac)
    requires user in ident && user in keys
    requires t >= 200 && t - 60 <= now <= t + 60
    ensures !OldPinAccepted(mac, Str(user), Str(GeneratePin(mac, keys[user], ident[user].id, t)),
                            ident, keys, now)
  {
    var id := ident[user].id;
    var pin := Str(GeneratePin(mac, keys[user], id, t));
    forall u | now - 2 * TimeSlice <= u < now + 2 * TimeSlice
      ensures !OldMatches(mac, Str(user), pin, ident, keys, u)
    {
      if OldMatches(mac, Str(user), pin, ident, keys, u) {
        DecimalInjective(Xor(u, id), Xor(Slice(t), id));
        XorInjective(u, Slice(t), id);
        assert false;
      }
    }
  }
}
