/** Bytes, byte strings and the fixed-width big-endian integers that the envelopes and TLS records use. */
module Bytes {
  newtype byte = x: int | 0 <= x < 256
  type bytes = seq<byte>

  const TWO16: int := 0x1_0000
  const TWO32: int := 0x1_0000_0000
  const TWO63: int := 0x8000_0000_0000_0000
  const TWO64: int := 0x1_0000_0000_0000_0000

  datatype Option<+T> = None | Some(value: T)

  lemma SliceOfSlice<T>(s: seq<T>, lo: nat, hi: nat, i: nat, j: nat)
    requires lo <= hi <= |s| && i <= j <= hi - lo
    ensures s[lo..hi][i..j] == s[lo + i..lo + j]
  {
    var x, y := s[lo..hi][i..j], s[lo + i..lo + j];
    assert |x| == |y|;
    forall k | 0 <= k < |x| ensures x[k] == y[k] {
      assert x[k] == s[lo..hi][i + k] == s[lo + i + k];
    }
  }

  /** What stands between a and c. */
  lemma Middle<T>(a: seq<T>, x: seq<T>, c: seq<T>)
    ensures (a + x + c)[|a|..|a| + |x|] == x
  {
  }

  lemma SliceOfPrefix<T>(s: seq<T>, t: seq<T>, i: nat, j: nat)
    requires i <= j <= |s|
    ensures (s + t)[i..j] == s[i..j]
  {
  }

  lemma DropOfDrop<T>(s: seq<T>, start: nat, n: nat)
    requires start + n <= |s|
    ensures s[start..][n..] == s[start + n..]
  {
  }

  lemma Assoc<T>(a: seq<T>, b: seq<T>, c: seq<T>)
    ensures a + b + c == a + (b + c)
  {
  }

  /** A string cut at i <= j <= k. */
  lemma CutInThree<T>(s: seq<T>, i: nat, j: nat, k: nat)
    requires i <= j <= k <= |s|
    ensures s[..k] == s[..i] + s[i..j] + s[j..k]
    ensures s[i..][..k - i] == s[i..j] + s[j..k]
  {
  }

  /** binary.BigEndian.Uint16 at position i. */
  function Uint16(b: bytes, i: nat): (v: nat)
    requires i + 2 <= |b|
    ensures v < TWO16
  {
    b[i] as nat * 256 + b[i + 1] as nat
  }

  /** The same where there may be no two bytes. */
  function Uint16At(b: bytes, i: nat): nat {
    if i + 2 <= |b| then Uint16(b, i) else 0
  }

  /** binary.BigEndian.Uint32 at position i. */
  function Uint32(b: bytes, i: nat): (v: nat)
    requires i + 4 <= |b|
    ensures v < TWO32
  {
    Uint16(b, i) * TWO16 + Uint16(b, i + 2)
  }

  /** The higher byte comes first. */
  lemma HighFirst(a: byte, b: byte, c: byte, d: byte)
    ensures Uint16([a, b], 0) == 256 * a as nat + b as nat
    ensures Uint32([a, b, c, d], 0) == 0x100_0000 * a as nat + 0x1_0000 * b as nat + 256 * c as nat + d as nat
  {
  }

  /** The same bytes read as the same number, wherever they stand. */
  lemma SameUint16(b: bytes, i: nat, c: bytes, j: nat)
    requires i + 2 <= |b| && j + 2 <= |c| && b[i..i + 2] == c[j..j + 2]
    ensures Uint16(b, i) == Uint16(c, j)
  {
    assert b[i] == b[i..i + 2][0] == c[j] && b[i + 1] == b[i..i + 2][1] == c[j + 1];
  }

  lemma SameUint32(b: bytes, i: nat, c: bytes, j: nat)
    requires i + 4 <= |b| && j + 4 <= |c| && b[i..i + 4] == c[j..j + 4]
    ensures Uint32(b, i) == Uint32(c, j)
  {
    hide Uint16;
    assert b[i..i + 2] == b[i..i + 4][..2] == c[j..j + 2];
    assert b[i + 2..i + 4] == b[i..i + 4][2..] == c[j + 2..j + 4];
    SameUint16(b, i, c, j);
    SameUint16(b, i + 2, c, j + 2);
  }

  lemma LowBits(n: nat)
    ensures n / 256 % 256 * 256 + n % 256 == n % TWO16
  {
    var q := n / 256;
    assert n == (q / 256) * TWO16 + (q % 256 * 256 + n % 256);
  }

  /** byte(n>>8), byte(n): the low 16 bits of n. */
  function PutUint16(n: nat): (b: bytes)
    ensures |b| == 2
    ensures Uint16(b, 0) == n % TWO16
  {
    LowBits(n);
    [(n / 256 % 256) as byte, (n % 256) as byte]
  }

  lemma TwoWords(n: nat)
    ensures n / TWO16 % TWO16 * TWO16 + n % TWO16 == n % TWO32
  {
    var q := n / TWO16;
    assert n == (q / TWO16) * TWO32 + (q % TWO16 * TWO16 + n % TWO16);
  }

  /** binary.BigEndian.PutUint32(uint32(n)): the low 32 bits of n. */
  function PutUint32(n: nat): (b: bytes)
    ensures |b| == 4
    ensures Uint32(b, 0) == n % TWO32
  {
    hide PutUint16;
    TwoWords(n);
    PutUint16(n / TWO16) + PutUint16(n)
  }
}
