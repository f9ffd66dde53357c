/** Base 128 varints: readVarint and encVarint of internal/provider/applewloc/wloc.go. */
module Varint {
  import opened Bytes

  datatype Read = Bad | Got(v: nat, n: nat)

  /**
   * The varint that starts at `b` when k bytes of it have been read already, in units of 128 to the power k.
   * The tenth byte may only be 0 or 1, an eleventh is refused.
   */
  function ReadFrom(b: bytes, k: nat): (r: Read)
    ensures r.Got? ==> 1 <= r.n <= |b| && k + r.n <= 10
  {
    if b == [] || k >= 10 || (k == 9 && b[0] > 1) then Bad
    else if b[0] < 128 then Got(b[0] as nat, 1)
    else
      match ReadFrom(b[1..], k + 1)
      case Bad => Bad
      case Got(v, n) => Got(b[0] as nat - 128 + 128 * v, n + 1)
  }

  function ReadVarint(b: bytes): Read {
    ReadFrom(b, 0)
  }

  /** binary.PutUvarint. */
  function EncVarint(v: nat): (b: bytes)
    ensures |b| >= 1
  {
    if v < 128 then [v as byte] else [(128 + v % 128) as byte] + EncVarint(v / 128)
  }

  /** uint64(v) of an int64. */
  function Unsigned(v: int): nat
    requires -TWO63 <= v < TWO63
  {
    if v < 0 then v + TWO64 else v
  }

  /** int64(v) of a uint64. */
  function Signed(v: nat): int
    requires v < TWO64
  {
    if v < TWO63 then v else v - TWO64
  }

  // ---- the loop of readVarint ----

  /** What the loop will return from v, w and i when `r` is what remains to be read. */
  ghost function Scaled(r: Read, v: nat, w: nat, i: nat): Read {
    match r
    case Bad => Bad
    case Got(u, n) => Got(v + u * w, i + n)
  }

  ghost predicate Refused(c: byte, i: nat) {
    i >= 10 || (i == 9 && c > 1)
  }

  lemma ScaledStep(b: bytes, v: nat, w: nat, i: nat)
    requires b != []
    ensures Refused(b[0], i) ==> Scaled(ReadFrom(b, i), v, w, i) == Bad
    ensures !Refused(b[0], i) && b[0] < 128 ==> Scaled(ReadFrom(b, i), v, w, i) == Got(v + b[0] as nat * w, i + 1)
    ensures !Refused(b[0], i) && b[0] >= 128 ==>
      Scaled(ReadFrom(b, i), v, w, i) == Scaled(ReadFrom(b[1..], i + 1), v + (b[0] as nat - 128) * w, 128 * w, i + 1)
  {
    var r := ReadFrom(b[1..], i + 1);
    if !Refused(b[0], i) && b[0] >= 128 && r.Got? {
      var c: int := b[0] as int - 128;
      assert (c + 128 * r.v) * w == c * w + r.v * (128 * w);
    }
  }

  lemma ScaledStart(b: bytes)
    ensures ReadVarint(b) == Scaled(ReadFrom(b[0..], 0), 0, 1, 0)
  {
    assert b[0..] == b;
  }

  lemma ScaledEnd(v: nat, w: nat, i: nat)
    ensures Scaled(ReadFrom([], i), v, w, i) == Bad
  {
  }

  /** The loop as written: v accumulates (c&127)<<(7*i), a disjoint bit range at every turn, so | is +. */
  method ReadVarintLoop(b: bytes) returns (r: Read)
    ensures r == ReadVarint(b)
  {
    hide Scaled, ReadFrom;
    var v: nat, i: nat, w: nat := 0, 0, 1;
    ScaledStart(b);
    while i < |b|
      invariant i <= |b| && i <= 10
      invariant ReadVarint(b) == Scaled(ReadFrom(b[i..], i), v, w, i)
    {
      var c := b[i];
      ScaledStep(b[i..], v, w, i);
      if i == 10 || (i == 9 && c > 1) {
        return Bad;
      }
      if c < 128 {
        return Got(v + c as nat * w, i + 1);
      }
      DropOfDrop(b, i, 1);
      v := v + (c as nat - 128) * w;
      i, w := i + 1, 128 * w;
    }
    ScaledEnd(v, w, i);
    return Bad;
  }

  // ---- laws ----

  /** Largest value that may still be read after k bytes, plus one. */
  function Room(k: nat): (m: nat)
    requires k <= 10
    ensures m >= 1
    decreases 10 - k
  {
    if k == 10 then 1 else if k == 9 then 2 else 128 * Room(k + 1)
  }

  lemma RoomIsUint64()
    ensures Room(0) == TWO64
  {
    assert Room(8) == 256 && Room(7) == 32768 && Room(6) == 128 * 32768;
    assert Room(5) == 128 * 128 * 32768 && Room(4) == 128 * Room(5);
    assert Room(3) == 128 * Room(4) && Room(2) == 128 * Room(3) && Room(1) == 128 * Room(2);
  }

  lemma {:induction false} ReadsBelowRoom(b: bytes, k: nat)
    requires k <= 9 && ReadFrom(b, k).Got?
    ensures ReadFrom(b, k).v < Room(k)
  {
    if b[0] >= 128 {
      if k < 9 { ReadsBelowRoom(b[1..], k + 1); }
    } else if k < 9 {
      assert Room(k + 1) >= 1;
    }
  }

  lemma {:induction false} ReadsOnlyPrefixFrom(b: bytes, k: nat, rest: bytes)
    requires ReadFrom(b, k).Got?
    ensures ReadFrom(b[..ReadFrom(b, k).n] + rest, k) == ReadFrom(b, k)
  {
    var n := ReadFrom(b, k).n;
    if b[0] >= 128 {
      ReadsOnlyPrefixFrom(b[1..], k + 1, rest);
      assert (b[..n] + rest)[1..] == b[1..][..n - 1] + rest;
    }
  }

  /** A successful read takes 1 to 10 bytes, depends on no other byte and fits 64 bits. */
  lemma ReadVarintLocal(b: bytes, rest: bytes)
    requires ReadVarint(b).Got?
    ensures var r := ReadVarint(b);
      1 <= r.n <= 10 && r.n <= |b| && r.v < TWO64 && ReadVarint(b[..r.n] + rest) == r
  {
    ReadsBelowRoom(b, 0);
    RoomIsUint64();
    ReadsOnlyPrefixFrom(b, 0, rest);
  }

  lemma {:induction false} RoundTripFrom(v: nat, k: nat, rest: bytes)
    requires k <= 9 && v < Room(k)
    ensures ReadFrom(EncVarint(v) + rest, k) == Got(v, |EncVarint(v)|)
  {
    if v >= 128 {
      RoundTripFrom(v / 128, k + 1, rest);
      assert (EncVarint(v) + rest)[1..] == EncVarint(v / 128) + rest;
    }
  }

  /** Every 64-bit value is read back, whatever follows it. */
  lemma VarintRoundTrip(v: nat, rest: bytes)
    requires v < TWO64
    ensures ReadVarint(EncVarint(v) + rest) == Got(v, |EncVarint(v)|)
    ensures |EncVarint(v)| <= 10
  {
    RoomIsUint64();
    RoundTripFrom(v, 0, rest);
  }

  /** Negative values travel as their two's complement. */
  lemma SignedRoundTrip(v: int, rest: bytes)
    requires -TWO63 <= v < TWO63
    ensures var r := ReadVarint(EncVarint(Unsigned(v)) + rest);
      && r.Got? && r.n == |EncVarint(Unsigned(v))| && r.v < TWO64 && Signed(r.v) == v
      && r.v == if v < 0 then 0x1_0000_0000_0000_0000 + v else v
  {
    VarintRoundTrip(Unsigned(v), rest);
  }

  lemma {:induction false} SameFrom(b: bytes, j: nat, k: nat)
    requires ReadFrom(b, j).Got? && j + ReadFrom(b, j).n <= 9 && k + ReadFrom(b, j).n <= 9
    ensures ReadFrom(b, k) == ReadFrom(b, j)
  {
    if b[0] >= 128 { SameFrom(b[1..], j + 1, k + 1); }
  }

  /** Seven bits to a byte, the lowest first; the eighth says that another byte follows. */
  lemma LittleEndian(c: byte, b: bytes)
    ensures c < 128 ==> ReadVarint([c] + b) == Got(c as nat, 1)
    ensures c >= 128 && ReadVarint(b).Got? && ReadVarint(b).n <= 8 ==>
      ReadVarint([c] + b) == Got(c as nat - 128 + 128 * ReadVarint(b).v, 1 + ReadVarint(b).n)
  {
    assert ([c] + b)[1..] == b;
    if c >= 128 && ReadVarint(b).Got? && ReadVarint(b).n <= 8 { SameFrom(b, 0, 1); }
  }

  lemma {:induction false} TenthFrom(b: bytes, c: byte, rest: bytes, k: nat)
    requires k <= 9 && |b| == 9 - k && forall i | 0 <= i < |b| :: b[i] >= 128
    ensures ReadFrom(b + [c] + rest, k).Got? <==> c <= 1
  {
    if b == [] {
      assert (b + [c] + rest)[0] == c;
    } else {
      TenthFrom(b[1..], c, rest, k + 1);
      assert (b + [c] + rest)[1..] == b[1..] + [c] + rest;
    }
  }

  /** After nine bytes that announce another, the tenth is accepted if and only if it is 0 or 1. */
  lemma TenthByte(b: bytes, c: byte, rest: bytes)
    requires |b| == 9 && forall i | 0 <= i < |b| :: b[i] >= 128
    ensures ReadVarint(b + [c] + rest).Got? <==> c <= 1
  {
    TenthFrom(b, c, rest, 0);
  }

  lemma {:induction false} ShortestFrom(b: bytes, k: nat)
    requires ReadFrom(b, k).Got?
    ensures |EncVarint(ReadFrom(b, k).v)| <= ReadFrom(b, k).n
  {
    if b[0] >= 128 {
      ShortestFrom(b[1..], k + 1);
      var u := ReadFrom(b[1..], k + 1).v;
      var v := ReadFrom(b, k).v;
      assert v / 128 == u;
    }
  }

  /** encVarint writes no accepted encoding longer than need be. */
  lemma EncVarintShortest(b: bytes)
    requires ReadVarint(b).Got?
    ensures |EncVarint(ReadVarint(b).v)| <= ReadVarint(b).n
  {
    ShortestFrom(b, 0);
  }
}
