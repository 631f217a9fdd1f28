/** JSON documents as the connection code sees them, and the codec that
    stands in for json.dumps(...).encode(...) and json.load(...).

    The documents the protocol exchanges are flat: a header object with
    four entries, a request object {"user", "pin"}, a response object
    {"result"}. A document is therefore either a scalar or an object whose
    values are scalars. The byte format is a tagged, length-prefixed stand-in
    for JSON text; what the rest of the model relies on is only that
    decoding inverts encoding (DecodeEncode) and that decoding is a total
    function that may fail. */
module Json {
  import opened Common
  import opened Text

  datatype Scalar = Null | Bool(b: bool) | Int(i: int) | Str(s: string)

  datatype Field = Field(key: string, value: Scalar)

  datatype Json = Value(v: Scalar) | Object(fields: seq<Field>)

  /** Python's truth value of the decoded document: None, False, 0, "" and
      {} are false. */
  predicate ScalarTruthy(v: Scalar)
  {
    match v
    case Null => false
    case Bool(b) => b
    case Int(i) => i != 0
    case Str(s) => s != ""
  }

  predicate Truthy(j: Json)
  {
    match j
    case Value(v) => ScalarTruthy(v)
    case Object(fs) => fs != []
  }

  /** d.get(key) on the dict json.load builds: when a key repeats, the last
      occurrence wins. */
  function Get(fs: seq<Field>, key: string): (r: Option<Scalar>)
    ensures r.Some? <==> exists i :: 0 <= i < |fs| && fs[i].key == key
    ensures r.Some? ==> exists i :: 0 <= i < |fs| && fs[i] == Field(key, r.value)
  {
    if fs == [] then None
    else if fs[|fs| - 1].key == key then Some(fs[|fs| - 1].value)
    else Get(fs[..|fs| - 1], key)
  }

  /** The value Get finds is that of the last entry with the key: the
      entry at `i` carries it and no later entry has the key. */
  lemma {:induction false} GetLast(fs: seq<Field>, key: string, i: nat)
    requires i < |fs| && fs[i].key == key
    requires forall j :: i < j < |fs| ==> fs[j].key != key
    ensures Get(fs, key) == Some(fs[i].value)
  {
    if i < |fs| - 1 {
      GetLast(fs[..|fs| - 1], key, i);
    }
  }

  /** Both keys of a two-field object with distinct keys are found. */
  lemma GetPair(a: Field, b: Field)
    requires a.key != b.key
    ensures Get([a, b], a.key) == Some(a.value) && Get([a, b], b.key) == Some(b.value)
  {
    assert [a, b][..1] == [a];
  }

  /** str(v) for a scalar, as an f-string renders it. */
  function PyStr(v: Option<Scalar>): string
  {
    match v
    case None => "None"
    case Some(Null) => "None"
    case Some(Bool(b)) => if b then "True" else "False"
    case Some(Int(i)) => Decimal(i)
    case Some(Str(s)) => s
  }

  // ---- encoding ----

  /** Unsigned varint: seven bits per byte, low group first, high bit set
      on every byte but the last. */
  function EncodeNat(n: nat): (r: seq<Byte>)
    ensures |r| >= 1
  {
    if n < 128 then [n] else [128 + n % 128] + EncodeNat(n / 128)
  }

  function EncodeChar(c: char): seq<Byte>
  {
    var n := c as int;
    [n / 0x1_0000, n / 0x100 % 0x100, n % 0x100]
  }

  /** Three bytes per character, in order. */
  function EncodeChars(s: string): (r: seq<Byte>)
    ensures |r| == 3 * |s|
  {
    seq(3 * |s|, i requires 0 <= i < 3 * |s| => EncodeChar(s[i / 3])[i % 3])
  }

  /** The encoding of a non-empty string starts with its first character's
      three bytes. */
  lemma EncodeCharsCons(s: string)
    requires s != []
    ensures EncodeChars(s) == EncodeChar(s[0]) + EncodeChars(s[1..])
  {
    var r := EncodeChar(s[0]) + EncodeChars(s[1..]);
    forall i | 3 <= i < 3 * |s|
      ensures EncodeChars(s)[i] == r[i]
    {
      assert (i - 3) / 3 == i / 3 - 1 && (i - 3) % 3 == i % 3;
      assert s[1..][(i - 3) / 3] == s[i / 3];
    }
  }

  function EncodeString(s: string): seq<Byte>
  {
    EncodeNat(|s|) + EncodeChars(s)
  }

  function EncodeScalar(v: Scalar): (r: seq<Byte>)
    ensures |r| >= 1 && r[0] < 4
  {
    match v
    case Null => [0]
    case Bool(b) => [1, if b then 1 else 0]
    case Int(i) => [2, if i < 0 then 1 else 0] + EncodeNat(if i < 0 then -i else i)
    case Str(s) => [3] + EncodeString(s)
  }

  function EncodeFields(fs: seq<Field>): seq<Byte>
  {
    if fs == [] then [] else EncodeString(fs[0].key) + EncodeScalar(fs[0].value) + EncodeFields(fs[1..])
  }

  /** json.dumps(j).encode(...) */
  function Encode(j: Json): (r: seq<Byte>)
    ensures |r| >= 1
  {
    match j
    case Value(v) => EncodeScalar(v)
    case Object(fs) => [4] + EncodeNat(|fs|) + EncodeFields(fs)
  }

  // ---- decoding: each parser returns what it read and the bytes after it ----

  function DecodeNat(b: seq<Byte>): (r: Option<(nat, seq<Byte>)>)
    ensures r.Some? ==> |r.value.1| < |b|
  {
    if b == [] then None
    else if b[0] < 128 then Some((b[0] as nat, b[1..]))
    else match DecodeNat(b[1..])
      case None => None
      case Some((m, rest)) => Some((b[0] - 128 + 128 * m, rest))
  }

  function DecodeChar(b: seq<Byte>): (r: Option<(char, seq<Byte>)>)
    ensures r.Some? ==> |r.value.1| < |b|
  {
    if |b| < 3 then None
    else
      var n := b[0] as int * 0x1_0000 + b[1] as int * 0x100 + b[2] as int;
      if n < 0xD800 || 0xE000 <= n < 0x11_0000 then Some((n as char, b[3..])) else None
  }

  function DecodeChars(b: seq<Byte>, count: nat): (r: Option<(string, seq<Byte>)>)
    ensures r.Some? ==> |r.value.1| <= |b|
    decreases count
  {
    if count == 0 then Some(([], b))
    else match DecodeChar(b)
      case None => None
      case Some((c, rest)) =>
        match DecodeChars(rest, count - 1)
        case None => None
        case Some((s, rest')) => Some(([c] + s, rest'))
  }

  function DecodeString(b: seq<Byte>): (r: Option<(string, seq<Byte>)>)
    ensures r.Some? ==> |r.value.1| < |b|
  {
    match DecodeNat(b)
    case None => None
    case Some((n, rest)) => DecodeChars(rest, n)
  }

  function DecodeScalar(b: seq<Byte>): (r: Option<(Scalar, seq<Byte>)>)
    ensures r.Some? ==> |r.value.1| < |b|
  {
    if b == [] then None
    else if b[0] == 0 then Some((Null, b[1..]))
    else if b[0] == 1 then
      if |b| >= 2 && b[1] < 2 then Some((Bool(b[1] == 1), b[2..])) else None
    else if b[0] == 2 then
      if |b| >= 2 && b[1] < 2 then
        match DecodeNat(b[2..])
        case None => None
        case Some((m, rest)) =>
          var magnitude: int := m;
          Some((Int(if b[1] == 1 then -magnitude else magnitude), rest))
      else None
    else if b[0] == 3 then
      match DecodeString(b[1..])
      case None => None
      case Some((s, rest)) => Some((Str(s), rest))
    else None
  }

  function DecodeFields(b: seq<Byte>, count: nat): (r: Option<(seq<Field>, seq<Byte>)>)
    ensures r.Some? ==> |r.value.1| <= |b|
    decreases count
  {
    if count == 0 then Some(([], b))
    else match DecodeString(b)
      case None => None
      case Some((k, rest)) =>
        match DecodeScalar(rest)
        case None => None
        case Some((v, rest')) =>
          match DecodeFields(rest', count - 1)
          case None => None
          case Some((fs, rest'')) => Some(([Field(k, v)] + fs, rest''))
  }

  /** json.load on a byte string: the whole string must be one document. */
  function Decode(b: seq<Byte>): Option<Json>
  {
    if b == [] then None
    else if b[0] == 4 then
      match DecodeNat(b[1..])
      case None => None
      case Some((n, rest)) =>
        match DecodeFields(rest, n)
        case Some((fs, tail)) => if tail == [] then Some(Object(fs)) else None
        case None => None
    else
      match DecodeScalar(b)
      case Some((v, tail)) => if tail == [] then Some(Value(v)) else None
      case None => None
  }

  // ---- round trip ----

  lemma {:induction false} DecodeEncodeNat(n: nat, rest: seq<Byte>)
    ensures DecodeNat(EncodeNat(n) + rest) == Some((n, rest))
  {
    if n >= 128 {
      DecodeEncodeNat(n / 128, rest);
      assert (EncodeNat(n) + rest)[1..] == EncodeNat(n / 128) + rest;
    }
  }

  lemma DecodeEncodeChar(c: char, rest: seq<Byte>)
    ensures DecodeChar(EncodeChar(c) + rest) == Some((c, rest))
  {
    var b := EncodeChar(c) + rest;
    assert b[3..] == rest;
  }

  lemma {:induction false} DecodeEncodeChars(s: string, rest: seq<Byte>)
    ensures DecodeChars(EncodeChars(s) + rest, |s|) == Some((s, rest))
  {
    if s != [] {
      var tail := EncodeChars(s[1..]) + rest;
      DecodeEncodeChar(s[0], tail);
      DecodeEncodeChars(s[1..], rest);
      EncodeCharsCons(s);
      assert EncodeChars(s) + rest == EncodeChar(s[0]) + tail;
      assert DecodeChar(EncodeChars(s) + rest) == Some((s[0], tail));
      assert DecodeChars(tail, |s| - 1) == Some((s[1..], rest));
      assert [s[0]] + s[1..] == s;
    } else {
      assert EncodeChars(s) + rest == rest;
    }
  }

  lemma DecodeEncodeString(s: string, rest: seq<Byte>)
    ensures DecodeString(EncodeString(s) + rest) == Some((s, rest))
  {
    DecodeEncodeNat(|s|, EncodeChars(s) + rest);
    DecodeEncodeChars(s, rest);
    assert EncodeString(s) + rest == EncodeNat(|s|) + (EncodeChars(s) + rest);
  }

  lemma DecodeEncodeScalar(v: Scalar, rest: seq<Byte>)
    ensures DecodeScalar(EncodeScalar(v) + rest) == Some((v, rest))
  {
    match v
    case Null =>
      assert (EncodeScalar(v) + rest)[1..] == rest;
    case Bool(x) =>
      assert (EncodeScalar(v) + rest)[2..] == rest;
    case Int(i) =>
      DecodeEncodeInt(i, rest);
    case Str(s) =>
      DecodeEncodeStr(s, rest);
  }

  lemma DecodeEncodeStr(s: string, rest: seq<Byte>)
    ensures DecodeScalar(EncodeScalar(Str(s)) + rest) == Some((Str(s), rest))
  {
    var b := EncodeScalar(Str(s)) + rest;
    assert b == [3] + (EncodeString(s) + rest);
    assert b[0] == 3 && b[1..] == EncodeString(s) + rest;
    DecodeEncodeString(s, rest);
  }

  lemma DecodeEncodeInt(i: int, rest: seq<Byte>)
    ensures DecodeScalar(EncodeScalar(Int(i)) + rest) == Some((Int(i), rest))
  {
    var b := EncodeScalar(Int(i)) + rest;
    var m: nat := if i < 0 then -i else i;
    DecodeEncodeNat(m, rest);
    assert b[2..] == EncodeNat(m) + rest;
    assert b[0] == 2 && b[1] == (if i < 0 then 1 else 0);
  }

  lemma {:induction false} DecodeEncodeFields(fs: seq<Field>, rest: seq<Byte>)
    ensures DecodeFields(EncodeFields(fs) + rest, |fs|) == Some((fs, rest))
  {
    if fs != [] {
      DecodeEncodeFields(fs[1..], rest);
      DecodeEncodeField(fs, rest);
    } else {
      assert EncodeFields(fs) + rest == rest;
    }
  }

  /** One step of the induction above: the first field decodes, and the
      rest decodes as the induction hypothesis says. */
  lemma DecodeEncodeField(fs: seq<Field>, rest: seq<Byte>)
    requires fs != []
    requires DecodeFields(EncodeFields(fs[1..]) + rest, |fs| - 1) == Some((fs[1..], rest))
    ensures DecodeFields(EncodeFields(fs) + rest, |fs|) == Some((fs, rest))
  {
    var key, value := fs[0].key, fs[0].value;
    var tail := EncodeFields(fs[1..]) + rest;
    var afterKey := EncodeScalar(value) + tail;
    EncodeFieldsCons(fs, rest);
    DecodeEncodeString(key, afterKey);
    DecodeEncodeScalar(value, tail);
    DecodeFieldsCons(EncodeFields(fs) + rest, key, value, afterKey, tail, fs[1..], rest, |fs|);
    assert [Field(key, value)] + fs[1..] == fs;
  }

  /** The encoding of a non-empty field list, followed by more bytes. */
  lemma EncodeFieldsCons(fs: seq<Field>, rest: seq<Byte>)
    requires fs != []
    ensures EncodeFields(fs) + rest ==
              EncodeString(fs[0].key) + (EncodeScalar(fs[0].value) + (EncodeFields(fs[1..]) + rest))
  {
  }

  /** The decoder reads a field list as its first key, first value and the
      remaining fields. */
  lemma DecodeFieldsCons(b: seq<Byte>, key: string, value: Scalar, afterKey: seq<Byte>,
                         tail: seq<Byte>, fs: seq<Field>, rest: seq<Byte>, count: nat)
    requires count > 0
    requires DecodeString(b) == Some((key, afterKey))
    requires DecodeScalar(afterKey) == Some((value, tail))
    requires DecodeFields(tail, count - 1) == Some((fs, rest))
    ensures DecodeFields(b, count) == Some(([Field(key, value)] + fs, rest))
  {
  }

  /** json.load inverts json.dumps on every document the model represents. */
  lemma DecodeEncode(j: Json)
    ensures Decode(Encode(j)) == Some(j)
  {
    match j
    case Value(v) => DecodeEncodeValue(v);
    case Object(fs) => DecodeEncodeObject(fs);
  }

  lemma DecodeEncodeValue(v: Scalar)
    ensures Decode(Encode(Value(v))) == Some(Value(v))
  {
    DecodeEncodeScalar(v, []);
    assert EncodeScalar(v) + [] == EncodeScalar(v);
  }

  lemma DecodeEncodeObject(fs: seq<Field>)
    ensures Decode(Encode(Object(fs))) == Some(Object(fs))
  {
    var body := EncodeFields(fs);
    var b := Encode(Object(fs));
    assert b == [4] + (EncodeNat(|fs|) + body);
    assert b[0] == 4 && b[1..] == EncodeNat(|fs|) + body;
    DecodeEncodeNat(|fs|, body);
    assert DecodeNat(b[1..]) == Some((|fs|, body));
    DecodeEncodeFields(fs, []);
    assert body + [] == body;
    assert DecodeFields(body, |fs|) == Some((fs, []));
  }

  /** Two documents with the same encoding are the same document. */
  lemma EncodeInjective(a: Json, b: Json)
    requires Encode(a) == Encode(b)
    ensures a == b
  {
    DecodeEncode(a);
    DecodeEncode(b);
  }
}
