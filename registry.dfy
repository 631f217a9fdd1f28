/** The server's identifier/authorization registry: the `ident` map from a
    user to the identifier last issued to them and its issue time, the
    `auth` map from a user to the time their last valid pin arrived, the
    issuance logic of the /checkname page and the two expiry sweeps. Both
    server revisions share this code. Each locked block is one method and
    runs atomically; the clock and the random draw are parameters. */
module Registry {
  import opened Common
  import opened Text
  import opened Json
  import opened PinEngine

  /** Seconds an authorization lasts. */
  const AuthTimeout: int := 120

  /** Seconds an identifier lasts. */
  const IdentTimeout: int := 120

  /** An identifier with less than this many seconds left is replaced
      rather than shown again. */
  const MinTime: int := 30

  /** What /checkname reports for a user name. */
  datatype Issued = UserNotFound | Issued(authorized: bool, id: Identifier)

  /** What a sweep of `auth` with threshold `expire` keeps: the entries
      granted at or after `expire`, unchanged. */
  function LiveAuth(auth: map<string, int>, expire: int): (r: map<string, int>)
    ensures r.Keys <= auth.Keys
    ensures forall u :: u in auth ==> (u in r <==> auth[u] >= expire)
    ensures forall u :: u in r ==> r[u] == auth[u]
  {
    map u | u in auth && auth[u] >= expire :: auth[u]
  }

  /** What a sweep of `ident` with threshold `expire` keeps. */
  function LiveIdent(ident: map<string, Binding>, expire: int): (r: map<string, Binding>)
    ensures r.Keys <= ident.Keys
    ensures forall u :: u in ident ==> (u in r <==> ident[u].issuedAt >= expire)
    ensures forall u :: u in r ==> r[u] == ident[u]
  {
    map u | u in ident && ident[u].issuedAt >= expire :: ident[u]
  }

  /** Whether an existing binding is shown again at `now`: it must have
      more than MinTime seconds of its IdentTimeout left. */
  predicate StillFresh(b: Binding, now: int)
  {
    b.issuedAt > now - IdentTimeout + MinTime
  }

  /** The issuance step of /checkname as a function of the registry: the
      report, and the identifier map afterwards. */
  function Issuance(keys: map<string, string>, auth: map<string, int>, ident: map<string, Binding>,
                    user: string, now: int, draw: nat): (r: (Issued, map<string, Binding>))
    ensures r.0.UserNotFound? <==> user !in keys
    ensures r.0.UserNotFound? ==> r.1 == ident
    ensures r.0.Issued? ==> r.0.authorized == (user in auth)
    ensures r.0.Issued? ==> user in r.1 && r.1 == ident[user := r.1[user]] && r.1[user].id == r.0.id
    ensures r.0.Issued? && user in ident && StillFresh(ident[user], now) ==> r.1 == ident
    ensures r.0.Issued? && !(user in ident && StillFresh(ident[user], now)) ==>
              user in r.1 && r.1[user] == Binding(GenerateIdentifier(draw), now)
  {
    if user !in keys then (UserNotFound, ident)
    else if user in ident && StillFresh(ident[user], now) then
      (Issued(user in auth, ident[user].id), ident)
    else
      var nid := GenerateIdentifier(draw);
      (Issued(user in auth, nid), ident[user := Binding(nid, now)])
  }

  /** str(r_id).zfill(6) */
  function DisplayIdentifier(id: Identifier): (s: string)
    ensures |s| == 6 && AllDigits(s) && DigitsValue(s) == id
  {
    DigitsLength(id, 6);
    DigitsValueOfDigits(id);
    LeadingZerosValue(6 - |Digits(id)|, Digits(id));
    ZFill(Decimal(id), 6)
  }

  /** Two identifiers are displayed alike only if they are equal. */
  lemma DisplayInjective(a: Identifier, b: Identifier)
    requires DisplayIdentifier(a) == DisplayIdentifier(b)
    ensures a == b
  {
  }

  /** Whatever /checkname shows is still bound when the identifier sweep
      runs at any time up to MinTime seconds later, so a pin made from it in
      that span finds its identifier. */
  lemma IssuedOutlivesMinTime(keys: map<string, string>, auth: map<string, int>,
                              ident: map<string, Binding>, user: string, now: int, draw: nat, later: int)
    requires user in keys
    requires now <= later <= now + MinTime
    ensures var r := Issuance(keys, auth, ident, user, now, draw);
            user in LiveIdent(r.1, later - IdentTimeout) && LiveIdent(r.1, later - IdentTimeout)[user].id == r.0.id
  {
  }

  /** Asking again at once shows the same identifier and changes nothing. */
  lemma ReissueSame(keys: map<string, string>, auth: map<string, int>, ident: map<string, Binding>,
                    user: string, now: int, draw: nat, draw': nat)
    ensures var r := Issuance(keys, auth, ident, user, now, draw);
            Issuance(keys, auth, r.1, user, now, draw') == r
  {
  }

  /** A sweep only removes entries, and a second sweep with the same
      threshold removes nothing more. */
  lemma SweepsShrinkAndSettle(auth: map<string, int>, ident: map<string, Binding>, expire: int)
    ensures LiveAuth(auth, expire).Keys <= auth.Keys && LiveIdent(ident, expire).Keys <= ident.Keys
    ensures LiveAuth(LiveAuth(auth, expire), expire) == LiveAuth(auth, expire)
    ensures LiveIdent(LiveIdent(ident, expire), expire) == LiveIdent(ident, expire)
  {
  }

  class Registry {
    /** user name -> secret key; loaded once at start-up. */
    const keys: map<string, string>
    /** user name -> time of the last accepted pin. */
    var auth: map<string, int>
    /** user name -> identifier and the time it was issued. */
    var ident: map<string, Binding>

    constructor(keys: map<string, string>)
      ensures this.keys == keys && auth == map[] && ident == map[]
    {
      this.keys := keys;
      auth := map[];
      ident := map[];
    }

    /** make_new_key: bind a fresh identifier to uname, issued now. */
    method MakeNewKey(uname: string, draw: nat, now: int) returns (nid: Identifier)
      modifies this
      ensures nid == GenerateIdentifier(draw)
      ensures ident == old(ident)[uname := Binding(nid, now)]
      ensures auth == old(auth)
    {
      nid := GenerateIdentifier(draw);
      ident := ident[uname := Binding(nid, now)];
    }

    /** The locked issuance block of checkname, with the authorized status
        read before it. */
    method Issue(user: string, now: int, draw: nat) returns (r: Issued)
      modifies this
      ensures (r, ident) == Issuance(keys, old(auth), old(ident), user, now, draw)
      ensures auth == old(auth)
    {
      if user !in keys {
        return UserNotFound;
      }
      var authorized := user in auth;
      var expire := now - IdentTimeout + MinTime;
      var rid: Identifier;
      if user in ident {
        if ident[user].issuedAt > expire {
          rid := ident[user].id;
        } else {
          rid := MakeNewKey(user, draw, now);
        }
      } else {
        rid := MakeNewKey(user, draw, now);
      }
      r := Issued(authorized, rid);
    }

    /** timeout_auth: drop every authorization granted before now - AuthTimeout. */
    method TimeoutAuth(now: int)
      modifies this
      ensures auth == LiveAuth(old(auth), now - AuthTimeout)
      ensures ident == old(ident)
    {
      var expire := now - AuthTimeout;
      ghost var snapshot := auth;
      var pending := auth.Keys;
      while pending != {}
        invariant pending <= snapshot.Keys && auth.Keys <= snapshot.Keys
        invariant forall u :: u in auth ==> auth[u] == snapshot[u]
        invariant forall u :: u in snapshot ==> (u in auth <==> u in pending || snapshot[u] >= expire)
        invariant ident == old(ident)
        decreases pending
      {
        var x :| x in pending;
        if auth[x] < expire {
          auth := auth - {x};
        }
        pending := pending - {x};
      }
      assert auth == LiveAuth(snapshot, expire);
    }

    /** timeout_id: drop every identifier issued before now - IdentTimeout. */
    method TimeoutId(now: int)
      modifies this
      ensures ident == LiveIdent(old(ident), now - IdentTimeout)
      ensures auth == old(auth)
    {
      var expire := now - IdentTimeout;
      ghost var snapshot := ident;
      var pending := ident.Keys;
      while pending != {}
        invariant pending <= snapshot.Keys && ident.Keys <= snapshot.Keys
        invariant forall u :: u in ident ==> ident[u] == snapshot[u]
        invariant forall u :: u in snapshot ==> (u in ident <==> u in pending || snapshot[u].issuedAt >= expire)
        invariant auth == old(auth)
        decreases pending
      {
        var y :| y in pending;
        if ident[y].issuedAt < expire {
          ident := ident - {y};
        }
        pending := pending - {y};
      }
      assert ident == LiveIdent(snapshot, expire);
    }

    /** The server tick as written in both revisions (src/server.py:222,
        server.py:183): only authorizations expire. */
    method Tick(now: int)
      modifies this
      ensures auth == LiveAuth(old(auth), now - AuthTimeout)
      ensures ident == old(ident)
    {
      TimeoutAuth(now);
    }

    /** The tick with timeout_id in it (src/server.py:175-184, whose
        docstring promises an identifier times out after two minutes,
        IDENT_TIMEOUT at src/server.py:41); the thread loop as written
        never calls timeout_id. */
    method SweepingTick(now: int)
      modifies this
      ensures auth == LiveAuth(old(auth), now - AuthTimeout)
      ensures ident == LiveIdent(old(ident), now - IdentTimeout)
    {
      TimeoutAuth(now);
      TimeoutId(now);
    }
  }

  /** As written, `Tick` leaves `ident` unchanged (its second ensures), so
      the map after any number of ticks is the map before them, and an
      identifier issued more than IdentTimeout seconds before `now` still
      validates pins: the device's pin is accepted however old the binding. */
  lemma ExpiredIdentifierStillAccepted(mac: Mac, user: string, ident: map<string, Binding>,
                                       keys: map<string, string>, now: int)
    requires user in ident && user in keys
    requires ident[user].issuedAt < now - IdentTimeout
    ensures PinAccepted(mac, Str(user), Str(GeneratePin(mac, keys[user], ident[user].id, now)),
                        ident, keys, now)
  {
    GeneratedPinAccepted(mac, user, ident, keys, now, now);
  }

  /** With the identifier sweep in the tick, an expired identifier is gone
      after the tick at `now`, and no pin at all is accepted for the user
      until a new one is issued. */
  lemma SweptIdentifierRejected(mac: Mac, user: string, pin: Scalar, ident: map<string, Binding>,
                                keys: map<string, string>, now: int)
    requires user in ident
    requires ident[user].issuedAt < now - IdentTimeout
    ensures !PinAccepted(mac, Str(user), pin, LiveIdent(ident, now - IdentTimeout), keys, now)
  {
    NoIdentifierRejected(mac, user, pin, LiveIdent(ident, now - IdentTimeout), keys, now);
  }
}
