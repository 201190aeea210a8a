/** Bytes, big-endian integers and the other small vocabulary every component of the RFB model shares. */
module Bytes {
  type byte = x: int | 0 <= x < 256

  datatype Option<+T> = None | Some(value: T)

  /** `struct.unpack("!H", b)`. */
  function U16(b: seq<byte>): (n: nat)
    requires |b| == 2
    ensures n < 0x1_0000
  {
    var high: nat, low: nat := b[0], b[1];
    256 * high + low
  }

  /** `struct.unpack("!I", b)`. */
  function U32(b: seq<byte>): (n: nat)
    requires |b| == 4
    ensures n < 0x1_0000_0000
  {
    0x1_0000 * U16(b[..2]) + U16(b[2..])
  }

  /** `struct.pack("!H", n)`. */
  function Pack16(n: nat): (b: seq<byte>)
    requires n < 0x1_0000
    ensures |b| == 2 && U16(b) == n
  {
    [n / 256, n % 256]
  }

  /** `struct.pack("!I", n)`. */
  function Pack32(n: nat): (b: seq<byte>)
    requires n < 0x1_0000_0000
    ensures |b| == 4 && U32(b) == n
  {
    var b := Pack16(n / 0x1_0000) + Pack16(n % 0x1_0000);
    assert b[..2] == Pack16(n / 0x1_0000) && b[2..] == Pack16(n % 0x1_0000);
    b
  }

  /** A byte stream whatever packets it arrived in. */
  function Flatten(parts: seq<seq<byte>>): seq<byte> {
    if parts == [] then [] else parts[0] + Flatten(parts[1..])
  }

  lemma ConcatAssociates<T>(a: seq<T>, b: seq<T>, c: seq<T>)
    ensures (a + b) + c == a + (b + c)
  {
  }
}
