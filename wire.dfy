/** Byte-level vocabulary shared by the decoders: Go's fixed-width integer
    types as ranges of `int`, little-endian field access as done by
    `encoding/binary.LittleEndian`, Go's two's-complement conversions and
    Go's truncating integer division. */
module Wire {

  type byte = b: int | 0 <= b < 0x100
  type uint16 = v: int | 0 <= v < 0x1_0000
  type uint32 = v: int | 0 <= v < 0x1_0000_0000
  type uint64 = v: int | 0 <= v < 0x1_0000_0000_0000_0000

  datatype Option<+T> = None | Some(value: T)

  datatype Result<+T, +E> = Success(value: T) | Failure(error: E)

  // ---------------------------------------------------------------------
  // Little-endian unsigned fields

  /** `binary.LittleEndian.Uint16(b)`. */
  function LeUint16(b: seq<byte>): (v: uint16)
    requires |b| >= 2
  {
    b[0] as int + 0x100 * b[1] as int
  }

  /** `binary.LittleEndian.PutUint16`: the two bytes of `v`, low byte first. */
  function PutUint16(v: uint16): (b: seq<byte>)
    ensures |b| == 2 && LeUint16(b) == v
  {
    [v % 0x100, v / 0x100]
  }

  /** `binary.LittleEndian.Uint32(b)`. */
  function LeUint32(b: seq<byte>): (v: uint32)
    requires |b| >= 4
  {
    LeUint16(b) + 0x1_0000 * LeUint16(b[2..])
  }

  /** `binary.LittleEndian.PutUint32`. */
  function PutUint32(v: uint32): (b: seq<byte>)
    ensures |b| == 4 && LeUint32(b) == v
  {
    var lo := PutUint16(v % 0x1_0000);
    var hi := PutUint16(v / 0x1_0000);
    assert (lo + hi)[2..] == hi;
    lo + hi
  }

  /** `binary.LittleEndian.Uint64(b)`. */
  function LeUint64(b: seq<byte>): (v: uint64)
    requires |b| >= 8
  {
    LeUint32(b) + 0x1_0000_0000 * LeUint32(b[4..])
  }

  /** `binary.LittleEndian.PutUint64`. */
  function PutUint64(v: uint64): (b: seq<byte>)
    ensures |b| == 8 && LeUint64(b) == v
  {
    var lo := PutUint32(v % 0x1_0000_0000);
    var hi := PutUint32(v / 0x1_0000_0000);
    assert (lo + hi)[4..] == hi;
    lo + hi
  }

  /** Only the leading bytes of a field take part in reading it. */
  lemma LeUint16Prefix(b: seq<byte>, c: seq<byte>)
    requires |b| >= 2 && |c| >= 2 && b[..2] == c[..2]
    ensures LeUint16(b) == LeUint16(c)
  {
    assert b[0] == b[..2][0] && b[1] == b[..2][1];
  }

  lemma LeUint32Prefix(b: seq<byte>, c: seq<byte>)
    requires |b| >= 4 && |c| >= 4 && b[..4] == c[..4]
    ensures LeUint32(b) == LeUint32(c)
  {
    LeUint16Prefix(b, c);
    assert b[2..][..2] == b[..4][2..] == c[2..][..2];
    LeUint16Prefix(b[2..], c[2..]);
  }

  lemma LeUint64Prefix(b: seq<byte>, c: seq<byte>)
    requires |b| >= 8 && |c| >= 8 && b[..8] == c[..8]
    ensures LeUint64(b) == LeUint64(c)
  {
    assert b[..4] == b[..8][..4] && c[..4] == c[..8][..4];
    LeUint32Prefix(b, c);
    assert b[4..][..4] == b[..8][4..] == c[4..][..4];
    LeUint32Prefix(b[4..], c[4..]);
  }

  /** A field read at `at` is the field read from its own bytes. */
  lemma LeUint16At(data: seq<byte>, at: nat, b: seq<byte>)
    requires at + 2 <= |data| && |b| == 2 && data[at..at + 2] == b
    ensures LeUint16(data[at..]) == LeUint16(b)
  {
    assert data[at..][..2] == b;
    LeUint16Prefix(data[at..], b);
  }

  lemma LeUint32At(data: seq<byte>, at: nat, b: seq<byte>)
    requires at + 4 <= |data| && |b| == 4 && data[at..at + 4] == b
    ensures LeUint32(data[at..]) == LeUint32(b)
  {
    assert data[at..][..4] == b;
    LeUint32Prefix(data[at..], b);
  }

  // ---------------------------------------------------------------------
  // Go's conversions between unsigned and signed integers of one width

  /** `int8(b)`: the byte read as a two's-complement number. */
  function Int8(b: byte): (r: int)
    ensures -0x80 <= r < 0x80
    ensures r == b || r == b - 0x100
  {
    if b < 0x80 then b else b - 0x100
  }

  /** `int16(v)`. */
  function Int16(v: uint16): (r: int)
    ensures -0x8000 <= r < 0x8000
    ensures r == v || r == v - 0x1_0000
  {
    if v < 0x8000 then v else v - 0x1_0000
  }

  /** `int64(v)`. */
  function Int64(v: uint64): (r: int)
    ensures -0x8000_0000_0000_0000 <= r < 0x8000_0000_0000_0000
    ensures r == v || r == v - 0x1_0000_0000_0000_0000
  {
    if v < 0x8000_0000_0000_0000 then v else v - 0x1_0000_0000_0000_0000
  }

  // ---------------------------------------------------------------------
  // Go's integer division truncates toward zero

  /** Go's `a / d` for a positive divisor. */
  function Quot(a: int, d: int): int
    requires d > 0
  {
    if a >= 0 then a / d else -((-a) / d)
  }

  /** Go's `a % d` for a positive divisor: it takes the sign of `a`. */
  function Rem(a: int, d: int): (r: int)
    requires d > 0
    ensures a == d * Quot(a, d) + r
    ensures a >= 0 ==> 0 <= r < d
    ensures a < 0 ==> -d < r <= 0
  {
    if a >= 0 then a % d else -((-a) % d)
  }

  // ---------------------------------------------------------------------
  // Go's built-in copy into a slice of an array

  /** Go's `copy(a[at:], src)` when `src` fits; also what
      `binary.LittleEndian.PutUintN(a[at:], v)` does with the bytes of `v`. */
  method CopyInto<T>(a: array<T>, at: nat, src: seq<T>)
    requires at + |src| <= a.Length
    modifies a
    ensures a[..] == old(a[..at]) + src + old(a[at + |src|..])
  {
    var i := 0;
    while i < |src|
      invariant 0 <= i <= |src|
      invariant forall k :: 0 <= k < at ==> a[k] == old(a[k])
      invariant forall k :: 0 <= k < i ==> a[at + k] == src[k]
      invariant forall k :: at + i <= k < a.Length ==> a[k] == old(a[k])
    {
      a[at + i] := src[i];
      i := i + 1;
    }
    assert forall k :: 0 <= k < a.Length ==>
      a[..][k] == (old(a[..at]) + src + old(a[at + |src|..]))[k];
  }

  /** Stores the next `|b|` bytes of `e` into the window of `dst` that
      holds the first `j` bytes of `e` from `off` on. */
  method StoreNext<T>(dst: array<T>, b: seq<T>, ghost orig: seq<T>, ghost e: seq<T>, off: nat, j: nat)
    requires |orig| == dst.Length && off + |e| <= |orig| && j + |b| <= |e| && e[j..j + |b|] == b
    requires dst[..] == orig[..off] + e[..j] + orig[off + j..]
    modifies dst
    ensures dst[..] == orig[..off] + e[..j + |b|] + orig[off + j + |b|..]
  {
    FillStep(orig, e, off, j, b);
    CopyInto(dst, off + j, b);
  }

  /** Writing the next `|b|` bytes of `e` into a window of `orig` that
      holds the first `j` bytes of `e` from `off` on. */
  lemma FillStep<T>(orig: seq<T>, e: seq<T>, off: nat, j: nat, b: seq<T>)
    requires off + |e| <= |orig| && j + |b| <= |e| && e[j..j + |b|] == b
    ensures var now := orig[..off] + e[..j] + orig[off + j..];
      now[..off + j] + b + now[off + j + |b|..] == orig[..off] + e[..j + |b|] + orig[off + j + |b|..]
  {
    var now := orig[..off] + e[..j] + orig[off + j..];
    assert now[..off + j] == orig[..off] + e[..j];
    assert now[off + j + |b|..] == orig[off + j + |b|..];
    assert e[..j + |b|] == e[..j] + b;
  }

  lemma ConsAppend<T>(xs: seq<T>, ys: seq<T>)
    requires xs != []
    ensures [xs[0]] + (xs[1..] + ys) == xs + ys
  {
    assert xs == [xs[0]] + xs[1..];
  }

  lemma TakeSnoc<T>(s: seq<T>, i: nat)
    requires i < |s|
    ensures s[..i + 1] == s[..i] + [s[i]]
  {
  }

  lemma SplicePrefix<T>(now: seq<T>, was: seq<T>, off: nat, e: seq<T>)
    requires off + |e| <= |was| && now == was[..off] + e + was[off + |e|..]
    ensures now[..off + |e|] == was[..off] + e
  {
  }

  lemma Assoc<T>(a: seq<T>, b: seq<T>, c: seq<T>)
    ensures (a + b) + c == a + (b + c)
  {
  }

  lemma TakeAll<T>(s: seq<T>)
    ensures s[..|s|] == s
  {
  }

  lemma TakeDrop<T>(s: seq<T>, i: nat)
    requires i <= |s|
    ensures s == s[..i] + s[i..]
  {
  }

  function Min(a: int, b: int): int { if a <= b then a else b }
  function Max(a: int, b: int): int { if a >= b then a else b }
}
