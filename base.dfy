/** Machine-level vocabulary shared by the whole model: bytes, C strings,
    the EOF sentinel, signed `char` conversion and 32-bit `int` arithmetic. */
module Base {

  /** One byte of a C buffer. */
  type Byte = b: int | 0 <= b < 256

  /** A C `char` on a signed-char target, widened to `int`. */
  type SChar = c: int | -128 <= c < 128

  /** A C `int` on a 32-bit target. */
  type Int32 = x: int | -0x8000_0000 <= x < 0x8000_0000

  /** The contents of a NUL-terminated C string (without its terminator). */
  type CStr = s: seq<Byte> | forall i :: 0 <= i < |s| ==> s[i] != 0

  /** `EOF` as defined in json.h. */
  const EOF: SChar := -1

  datatype Option<T> = None | Some(value: T)

  /** The `char` value a byte has once read through a plain (signed) `char`. */
  function Signed(b: Byte): (c: SChar)
    ensures 0 <= c ==> c == b
    ensures c < 0 ==> c == b - 256
  {
    if b < 128 then b else b - 256
  }

  /** The byte a `char` value is stored as. */
  function Unsigned(c: SChar): (b: Byte)
    ensures Signed(b) == c
  {
    if c < 0 then c + 256 else c
  }

  /** Two's-complement wrap-around of an integer into a 32-bit `int`. */
  function Wrap32(x: int): (r: Int32)
    ensures (r - x) % 0x1_0000_0000 == 0
    ensures -0x8000_0000 <= x < 0x8000_0000 ==> r == x
  {
    (x + 0x8000_0000) % 0x1_0000_0000 - 0x8000_0000
  }

  /** `strlen`: the index of the first NUL in a buffer that holds one. */
  function StrLen(buf: seq<Byte>): (n: nat)
    requires 0 in buf
    ensures n < |buf| && buf[n] == 0
    ensures forall i :: 0 <= i < n ==> buf[i] != 0
  {
    if buf[0] == 0 then 0 else 1 + StrLen(buf[1..])
  }

  /** The C string a NUL-terminated buffer holds. */
  function CString(buf: seq<Byte>): (s: CStr)
    requires 0 in buf
    ensures |s| < |buf| && buf[|s|] == 0
    ensures s == buf[..|s|]
  {
    buf[..StrLen(buf)]
  }

  /** A buffer whose first NUL is at `n` holds the C string of its first
      `n` bytes. */
  lemma {:induction false} CStringIsPrefix(buf: seq<Byte>, n: nat)
    requires n < |buf| && buf[n] == 0
    requires forall k :: 0 <= k < n ==> buf[k] != 0
    ensures 0 in buf && CString(buf) == buf[..n]
  {
    if n > 0 {
      CStringIsPrefix(buf[1..], n - 1);
      assert buf[1..][..n - 1] == buf[1..n];
    }
  }

  /** Concatenation regrouped from the left to the right. */
  lemma Regroup<T>(a: seq<T>, b: seq<T>, c: seq<T>, d: seq<T>, e: seq<T>, f: seq<T>)
    ensures a + b + c + d + e + f == a + (b + (c + (d + (e + f))))
  {
  }

  /** Concatenation regrouped around an enclosed middle part. */
  lemma Enclose<T>(a: seq<T>, b: seq<T>, c: seq<T>, d: seq<T>, e: seq<T>)
    ensures a + (b + c + d) + e == a + b + c + d + e
  {
  }

  /** Concatenation is associative. */
  lemma Shift3<T>(a: seq<T>, b: seq<T>, c: seq<T>)
    ensures a + (b + c) == a + b + c
  {
  }
}
