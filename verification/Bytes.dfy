/** Results, byte strings and the little-endian integers of the on-disk format. */
module Bytes {

  /** The driver's error classes; message text is not modelled. `Unreadable` stands for a
      failed read of the backing store and for a failed decompression. */
  datatype Error =
    | Corrupt | TooLarge | NotFound | NotDirectory | NotRegular | NotSymlink | TooManyLinks
    | Unreadable | UnexpectedEOF

  datatype Result<+T> = Ok(value: T) | Err(error: Error) {
    predicate IsFailure() { Err? }
    function PropagateFailure<U>(): Result<U>
      requires Err?
    {
      Err(error)
    }
    function Extract(): T
      requires Ok?
    {
      value
    }
  }

  datatype Option<+T> = None | Some(value: T)

  type Byte = x: int | 0 <= x < 256

  const TWO_16 := 0x1_0000
  const TWO_32 := 0x1_0000_0000
  const TWO_48 := 0x1_0000_0000_0000
  const TWO_64 := 0x1_0000_0000_0000_0000

  function Min(a: int, b: int): int {
    if a < b then a else b
  }

  /** PutUint16(uint16(x)): the conversion keeps the low 16 bits. */
  function LE16(x: nat): (r: seq<Byte>)
    ensures |r| == 2 && U16(r) == x % TWO_16
  {
    [x % 256, x / 256 % 256]
  }

  function LE32(x: nat): (r: seq<Byte>)
    ensures |r| == 4 && U32(r) == x % TWO_32
  {
    var low, high := LE16(x), LE16(x / TWO_16);
    Halves(x, TWO_16);
    assert (low + high)[..2] == low && (low + high)[2..] == high;
    low + high
  }

  function LE64(x: nat): (r: seq<Byte>)
    ensures |r| == 8 && U64(r) == x % TWO_64
  {
    var low, high := LE32(x), LE32(x / TWO_32);
    Halves(x, TWO_32);
    Joined(low, high);
    low + high
  }

  lemma Halves(x: nat, half: nat)
    requires half == TWO_16 || half == TWO_32
    ensures x % (half * half) == x % half + half * (x / half % half)
  {
  }

  lemma Joined(low: seq<Byte>, high: seq<Byte>)
    requires |low| == 4 && |high| == 4
    ensures U64(low + high) == U32(low) + TWO_32 * U32(high)
  {
    hide U32;
    assert (low + high)[..4] == low && (low + high)[4..] == high;
  }

  function U16(s: seq<Byte>): (r: nat)
    requires |s| == 2
    ensures r < TWO_16
  {
    var low: int, high: int := s[0], s[1];
    low + 0x100 * high
  }

  function U32(s: seq<Byte>): (r: nat)
    requires |s| == 4
    ensures r < TWO_32
  {
    U16(s[..2]) + TWO_16 * U16(s[2..])
  }

  function U64(s: seq<Byte>): (r: nat)
    requires |s| == 8
    ensures r < TWO_64
  {
    U32(s[..4]) + TWO_32 * U32(s[4..])
  }

  /** The least significant byte comes first. */
  lemma LittleEndian(s: seq<Byte>)
    ensures |s| == 2 ==> var a: int, b: int := s[0], s[1]; U16(s) == a + 0x100 * b
    ensures |s| == 4 ==>
              var a: int, b: int, c: int, d: int := s[0], s[1], s[2], s[3];
              U32(s) == a + 0x100 * b + 0x1_0000 * c + 0x100_0000 * d
    ensures |s| == 8 ==> U64(s) == U32(s[..4]) + 0x1_0000_0000 * U32(s[4..])
  {
  }

  /** int16(u) for a 16-bit pattern u. */
  function S16(u: nat): int {
    if u < 0x8000 then u else u - TWO_16
  }

  /** int32(u) for a 32-bit pattern u. */
  function S32(u: nat): int {
    if u < 0x8000_0000 then u else u - TWO_32
  }

  /** int64(x) of any integer, with wrap-around. */
  function I64(x: int): int {
    var u := x % TWO_64;
    if u < 0x8000_0000_0000_0000 then u else u - TWO_64
  }

  /** Conversion to a signed type picks the value in range that is congruent. */
  lemma TwosComplement(u: nat, x: int)
    ensures u < 0x1_0000 ==> -0x8000 <= S16(u) < 0x8000 && (S16(u) - u) % 0x1_0000 == 0
    ensures u < 0x1_0000_0000 ==> -0x8000_0000 <= S32(u) < 0x8000_0000 && (S32(u) - u) % 0x1_0000_0000 == 0
    ensures -0x8000_0000_0000_0000 <= I64(x) < 0x8000_0000_0000_0000
    ensures (I64(x) - x) % 0x1_0000_0000_0000_0000 == 0
  {
  }

  /** The bytes `piece` stand in `image` at offset `at`. */
  predicate Holds(image: seq<Byte>, at: int, piece: seq<Byte>) {
    0 <= at && at + |piece| <= |image| && image[at..at + |piece|] == piece
  }

  lemma HoldsParts(image: seq<Byte>, at: int, a: seq<Byte>, b: seq<Byte>)
    requires Holds(image, at, a + b)
    ensures Holds(image, at, a) && Holds(image, at + |a|, b)
  {
    var whole := a + b;
    assert image[at..at + |a|] == image[at..at + |whole|][..|a|] == whole[..|a|] == a;
    assert image[at + |a|..at + |whole|] == image[at..at + |whole|][|a|..] == whole[|a|..] == b;
  }

  lemma HoldsGrows(image: seq<Byte>, image': seq<Byte>, at: int, piece: seq<Byte>)
    requires Holds(image, at, piece) && image <= image'
    ensures Holds(image', at, piece)
  {
    assert image'[at..at + |piece|] == image[at..at + |piece|];
  }

  /** ReadAt on the backing store: a short read is an error. */
  function ReadRaw(image: seq<Byte>, at: int, n: nat): (r: Result<seq<Byte>>)
    ensures r.Ok? <==> 0 <= at && at + n <= |image|
    ensures r.Ok? ==> |r.value| == n && Holds(image, at, r.value)
  {
    if 0 <= at && at + n <= |image| then Ok(image[at..at + n]) else Err(Unreadable)
  }

  lemma ReadRawHolds(image: seq<Byte>, at: int, piece: seq<Byte>)
    requires Holds(image, at, piece)
    ensures ReadRaw(image, at, |piece|) == Ok(piece)
  {
  }
}
