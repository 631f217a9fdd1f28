/** Vocabulary shared by every component: bytes, optional values, the
    exceptions the Python code raises, Python's slice arithmetic and the
    2-byte big-endian length prefix written with struct.pack(">H", n). */
module Common {

  type Byte = b: int | 0 <= b < 256

  datatype Option<+T> = None | Some(value: T)

  /** The exceptions raised by the modelled code. A method that would raise
      returns the fault instead; the caller (the reactor loop) closes the
      connection. */
  datatype Fault =
    | PeerClosed               // RuntimeError("Peer closed.") on a zero-byte recv
    | JsonDecodeError          // json.load on bytes that are not a document
    | MissingHeader(key: string) // ValueError("Missing required header ...")
    | TypeError
    | AttributeError
    | KeyError
    | IndexError
    | ValueError               // int() of a string that is not a numeral
    | StructError              // struct.pack(">H", n) with n > 65535

  datatype Result<+T> = Ok(value: T) | Err(fault: Fault)

  const MaxBe16: nat := 0xFFFF

  /** struct.pack(">H", n): high byte first. */
  function Be16(n: nat): (r: seq<Byte>)
    requires n <= MaxBe16
    ensures |r| == 2 && Be16Value(r) == n
  {
    [n / 256, n % 256]
  }

  /** struct.unpack(">H", b)[0] */
  function Be16Value(b: seq<Byte>): (n: nat)
    requires |b| == 2
    ensures n <= MaxBe16
  {
    b[0] as int * 256 + b[1] as int
  }

  /** Every two bytes are the encoding of the number they denote, so the
      prefix codec is a bijection between [0, 65535] and 2-byte strings. */
  lemma Be16OfValue(b: seq<Byte>)
    requires |b| == 2
    ensures Be16(Be16Value(b)) == b
  {
  }

  function Min(a: int, b: int): int
  {
    if a <= b then a else b
  }

  /** The position at which Python splits a sequence of length n for the
      slices s[:k] and s[k:]: a negative k counts from the end, and k is
      clamped into [0, n]. */
  function PyCut(n: nat, k: int): (c: nat)
    ensures c <= n
    ensures 0 <= k <= n ==> c == k
    ensures k > n ==> c == n
    ensures k < 0 ==> c == if n + k < 0 then 0 else n + k
  {
    if k >= 0 then Min(k, n)
    else if n + k < 0 then 0
    else n + k
  }

  /** The bytes of several reads, in arrival order. */
  function Concat(chunks: seq<seq<Byte>>): seq<Byte>
  {
    if chunks == [] then [] else chunks[0] + Concat(chunks[1..])
  }

  /** The byte string of an ASCII literal such as b"First 10 bytes of request: ". */
  function Ascii(s: string): (r: seq<Byte>)
    requires forall i :: 0 <= i < |s| ==> s[i] as int < 128
    ensures |r| == |s|
    ensures forall i :: 0 <= i < |s| ==> r[i] == s[i] as int
  {
    seq(|s|, i requires 0 <= i < |s| => s[i] as int)
  }
}
