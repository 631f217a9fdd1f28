/** The authenticating device of both revisions: the pin generator, the
    default values behind the host and port prompts, the fixed user and
    key of the older device, and the session the newer device's web front
    end keeps in its module globals (host, port, user, key), filled in
    from one entry of the loaded key list. The clock, the prompt text and
    the key list are parameters. */
module Device {
  import opened Common
  import opened Text
  import opened Json
  import opened Framing
  import opened PinEngine

  /** The host used when nothing is typed at the host prompt. */
  const DefaultHost: string := "127.0.0.1"

  /** The port used when nothing is typed at the port prompt. */
  const DefaultPort: int := 4444

  /** set_host, given the text typed at the prompt. */
  function SetHost(entered: string): (host: string)
    ensures host != ""
    ensures entered != "" ==> host == entered
    ensures entered == "" ==> host == DefaultHost
  {
    if entered == "" then DefaultHost else entered
  }

  /** set_port, given the text typed at the prompt: `int(entered)`, which
      raises ValueError on text that is not a signed decimal. */
  function SetPort(entered: string): (port: Result<int>)
    ensures entered == "" ==> port == Ok(DefaultPort)
    ensures port.Err? ==> port.fault == ValueError
  {
    if entered == "" then Ok(DefaultPort) else ParseInt(entered)
  }

  /** Typing the decimal text of a port number selects that port. */
  lemma SetPortReadsDecimal(n: int)
    ensures SetPort(Decimal(n)) == Ok(n)
  {
    ParseDecimal(n);
  }

  /** Text with a character other than a digit after its first position is
      refused. */
  lemma SetPortRejectsNonDigit(entered: string, i: int)
    requires 0 < i < |entered| && !IsDigit(entered[i])
    ensures SetPort(entered) == Err(ValueError)
  {
    assert !AllDigits(entered);
    assert !AllDigits(entered[1..]) by {
      assert entered[1..][i - 1] == entered[i];
    }
  }

  /** get_user of the older device: always the test user. */
  function GetUser(): string
  {
    "test_user"
  }

  /** get_key of the older device: always the test key. */
  function GetKey(): string
  {
    "test_key"
  }

  /** generate_pin of the older device, at time `now`: keyed by get_key(). */
  function OldGeneratePin(mac: Mac, identifier: int, now: int): string
  {
    GeneratePin(mac, GetKey(), identifier, now)
  }

  /** The older device's pin only changes from one 30-second slice to the
      next. */
  lemma OldPinSameSlice(mac: Mac, identifier: int, k: int, t1: int, t2: int)
    requires TimeSlice * k <= t1 < TimeSlice * (k + 1)
    requires TimeSlice * k <= t2 < TimeSlice * (k + 1)
    ensures OldGeneratePin(mac, identifier, t1) == OldGeneratePin(mac, identifier, t2)
  {
    SameSliceSamePin(mac, GetKey(), identifier, k, t1, t2);
  }

  /** The older device's pin for the identifier bound to the test user is
      accepted by the slice-based check exactly when the server holds the
      test key for that user: within two slices it is accepted, and with
      any other key (and an injective HMAC) it never is. */
  lemma OldDevicePinAccepted(mac: Mac, ident: map<string, Binding>, keys: map<string, string>,
                             t: int, now: int)
    requires GetUser() in ident && GetUser() in keys
    requires -2 <= Slice(t) - Slice(now) <= 2
    requires Injective(mac)
    ensures PinAccepted(mac, Str(GetUser()), Str(OldGeneratePin(mac, ident[GetUser()].id, t)),
                        ident, keys, now)
            <==> keys[GetUser()] == GetKey()
  {
    var pin := Str(OldGeneratePin(mac, ident[GetUser()].id, t));
    if keys[GetUser()] == GetKey() {
      GeneratedPinAccepted(mac, GetUser(), ident, keys, t, now);
    } else {
      WrongKeyRejected(mac, GetUser(), GetKey(), ident[GetUser()].id, ident, keys, t, now);
    }
  }

  /** Python's `xs[index]` on a list of length n: the position it reads,
      or None where it raises IndexError. */
  function PyIndex(n: nat, index: int): (r: Option<nat>)
    ensures r.Some? ==> r.value < n
    ensures 0 <= index < n ==> r == Some(index)
    ensures index < 0 && 0 <= n + index ==> r.Some? && r.value == n + index
    ensures r.None? <==> n + index < 0 || n <= index
  {
    if 0 <= index < n then Some(index)
    else if 0 <= n + index && index < 0 then (var j: nat := n + index; Some(j))
    else None
  }

  /** The session of the newer device: the module globals host, port,
      user and key, and the key list entries they are taken from. */
  class Session {
    /** The loaded key list: one decoded document per line. */
    const roster: seq<Json>
    var host: Scalar
    var port: Scalar
    var user: Scalar
    var key: Scalar

    /** The module start-up values, with the key list already loaded. */
    constructor(roster: seq<Json>)
      ensures this.roster == roster
      ensures host == Str("127.0.0.1") && port == Int(65432)
      ensures user == Str("") && key == Str("")
    {
      this.roster := roster;
      host := Str("127.0.0.1");
      port := Int(65432);
      user := Str("");
      key := Str("");
    }

    /** id_process: point the session at entry `index` of the key list.
        The four globals are assigned in order, so a lookup that raises
        leaves the ones already assigned changed and the rest as they
        were; an index outside the list raises IndexError and changes
        nothing. */
    method IdProcess(index: int) returns (fault: Option<Fault>)
      modifies this
      ensures PyIndex(|roster|, index).None? ==>
                fault == Some(IndexError) && host == old(host) && port == old(port) &&
                user == old(user) && key == old(key)
      ensures PyIndex(|roster|, index).Some? ==>
                var t := roster[PyIndex(|roster|, index).value];
                var a, p, u, k := Lookup(t, "address"), Lookup(t, "port"), Lookup(t, "user"), Lookup(t, "key");
                host == (if a.Ok? then a.value else old(host)) &&
                port == (if a.Ok? && p.Ok? then p.value else old(port)) &&
                user == (if a.Ok? && p.Ok? && u.Ok? then u.value else old(user)) &&
                key == (if a.Ok? && p.Ok? && u.Ok? && k.Ok? then k.value else old(key)) &&
                fault == (if a.Err? then Some(a.fault) else if p.Err? then Some(p.fault)
                          else if u.Err? then Some(u.fault) else if k.Err? then Some(k.fault) else None)
    {
      var at := PyIndex(|roster|, index);
      if at.None? {
        return Some(IndexError);
      }
      var target := roster[at.value];
      var a := Lookup(target, "address");
      if a.Err? {
        return Some(a.fault);
      }
      host := a.value;
      var p := Lookup(target, "port");
      if p.Err? {
        return Some(p.fault);
      }
      port := p.value;
      var u := Lookup(target, "user");
      if u.Err? {
        return Some(u.fault);
      }
      user := u.value;
      var k := Lookup(target, "key");
      if k.Err? {
        return Some(k.fault);
      }
      key := k.value;
      fault := None;
    }

    /** generate_pin of the newer device, at time `now`: keyed by the
        session key, which must be a string (`key.encode` raises
        AttributeError on anything else). */
    function Pin(mac: Mac, identifier: int, now: int): (pin: Result<string>)
      reads this
      ensures pin.Ok? <==> key.Str?
      ensures pin.Err? ==> pin.fault == AttributeError
      ensures pin.Ok? ==> pin.value == GeneratePin(mac, key.s, identifier, now)
    {
      if key.Str? then Ok(GeneratePin(mac, key.s, identifier, now)) else Err(AttributeError)
    }
  }
}
