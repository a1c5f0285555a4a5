/** Machine-level types shared by the splash container codec. */
module Common {

  /** One byte of the container (Go's `byte` / `uint8`). */
  type Byte = x: int | 0 <= x < 0x100

  /** Go's `uint32`. */
  type U32 = x: int | 0 <= x < 0x1_0000_0000

  /** Go's `uint32(n)` conversion of a non-negative `int`: the value modulo 2^32. */
  function ToU32(n: nat): (r: U32)
    ensures n < 0x1_0000_0000 ==> r == n
  {
    n % 0x1_0000_0000
  }

  /** Splitting a number into its low byte and the rest (`x & 0xFF`, `x >> 8`). */
  lemma DivMod256(q: nat, r: nat)
    requires r < 0x100
    ensures (q * 0x100 + r) / 0x100 == q && (q * 0x100 + r) % 0x100 == r
  {
  }

  /** Splitting a number into its low 16 bits and the rest (`x >> 16`). */
  lemma DivMod65536(q: nat, r: nat)
    requires r < 0x10000
    ensures (q * 0x10000 + r) / 0x10000 == q
  {
  }

  /** Sequence associativity, stated apart to keep the proof contexts of the buffer-writing loops small. */
  lemma AppendAssoc<T>(a: seq<T>, b: seq<T>, c: seq<T>)
    ensures (a + b) + c == a + (b + c)
  {
  }

  /** One more element of a prefix, stated apart to keep the proof context of `WriteEntries` small. */
  lemma TakeNext<T>(s: seq<T>, i: nat)
    requires i < |s|
    ensures s[..i + 1] == s[..i] + [s[i]]
  {
  }

  /** `n` copies of `x`. */
  function Copies<T>(x: T, n: nat): (r: seq<T>)
    ensures |r| == n && forall k | 0 <= k < n :: r[k] == x
  {
    seq(n, _ => x)
  }

  /** `n` copies of the zero byte (a freshly made Go byte slice). */
  function Zeros(n: nat): (r: seq<Byte>)
    ensures |r| == n && forall k | 0 <= k < n :: r[k] == 0
  {
    Copies(0, n)
  }

  /** The error returns and fatal log calls of the codec, as values. */
  datatype Error =
    | HeaderSizeMismatch   // SplashHdr.Decode on fewer than 512 bytes
    | TruncatedRepeat      // "unexpected end of data during RLE repeat"
    | TruncatedRawBlock    // "unexpected end of data during RLE raw block"
    | SizeNotEqual         // BGR2Img on a buffer shorter than width*height*3

  datatype Result<T, E> = Success(value: T) | Failure(error: E)
}
