/** The protobuf wire format: `parse`, `key` and the field printers of internal/provider/applewloc/wloc.go. */
module Wire {
  import opened Bytes
  import opened Varint

  datatype Error = Malformed | Ambiguous | Unsupported
  datatype Result<+T> = Ok(value: T) | Err(error: Error)

  datatype Field = Field(num: nat, wire: nat, raw: bytes, value: bytes)

  const MAX_MESSAGE := 4194304
  const MAX_FIELDS := 10000
  const MAX_DEPTH := 8
  const TWO29: int := 0x2000_0000

  /** How many bytes of length prefix and of value follow a key. */
  datatype Extent = Extent(skip: nat, len: nat)

  function Payload(b: bytes, wire: nat): (e: Option<Extent>)
    ensures e.Some? ==> 1 <= e.value.skip + e.value.len <= |b|
    ensures e.Some? && wire == 2 ==> 1 <= e.value.skip
  {
    match wire
    case 0 => (match ReadVarint(b) case Bad => None case Got(_, n) => Some(Extent(0, n)))
    case 1 => if |b| < 8 then None else Some(Extent(0, 8))
    case 2 => (match ReadVarint(b)
               case Bad => None
               case Got(l, n) => if l > |b| - n then None else Some(Extent(n, l)))
    case 5 => if |b| < 4 then None else Some(Extent(0, 4))
    case _ => None
  }

  /** uint32(key>>3): the field number keeps 32 bits of a 61-bit quotient. */
  function KeyNumber(key: nat): nat { key / 8 % TWO32 }

  function KeyWire(key: nat): nat { key % 8 }

  predicate KeyRefused(key: nat) {
    KeyNumber(key) == 0 || KeyNumber(key) >= TWO29 || KeyWire(key) == 3 || KeyWire(key) == 4
  }

  /** The field at the start of `b`. */
  function One(b: bytes): (f: Option<Field>)
    ensures f.Some? ==> 2 <= |f.value.raw| <= |b| && f.value.raw == b[..|f.value.raw|]
    ensures f.Some? ==> |f.value.value| + (if f.value.wire == 2 then 2 else 1) <= |f.value.raw|
    ensures f.Some? ==> 1 <= f.value.num < TWO29 && f.value.wire in {0, 1, 2, 5}
  {
    match ReadVarint(b)
    case Bad => None
    case Got(key, n) =>
      if KeyRefused(key) then None
      else
        match Payload(b[n..], KeyWire(key))
        case None => None
        case Some(Extent(skip, len)) =>
          Some(Field(KeyNumber(key), KeyWire(key), b[..n + skip + len], b[n + skip..n + skip + len]))
  }

  /** All the fields of `b`, or None. */
  function Fields(b: bytes): Option<seq<Field>> {
    if b == [] then Some([])
    else
      match One(b)
      case None => None
      case Some(f) => Prepend([f], Fields(b[|f.raw|..]))
  }

  function Prepend(head: seq<Field>, tail: Option<seq<Field>>): Option<seq<Field>> {
    match tail case None => None case Some(fs) => Some(head + fs)
  }

  function Parse(b: bytes, depth: nat): Result<seq<Field>> {
    if depth > MAX_DEPTH then Err(Malformed)
    else
      match Fields(b)
      case None => Err(Malformed)
      case Some(fs) => if |fs| > MAX_FIELDS then Err(Malformed) else Ok(fs)
  }

  /** The switch of `parse` on the wire type. */
  method PayloadSwitch(b: bytes, wire: nat) returns (e: Option<Extent>)
    ensures e == Payload(b, wire)
  {
    match wire {
      case 0 =>
        var x := ReadVarintLoop(b);
        return if x.Bad? then None else Some(Extent(0, x.n));
      case 1 =>
        return if |b| < 8 then None else Some(Extent(0, 8));
      case 2 =>
        var x := ReadVarintLoop(b);
        return if x.Bad? || x.v > |b| - x.n then None else Some(Extent(x.n, x.v));
      case 5 =>
        return if |b| < 4 then None else Some(Extent(0, 4));
      case _ =>
        return None;
    }
  }

  /** One turn of the loop of `parse`, on the bytes from the cursor on. */
  method ReadField(b: bytes) returns (f: Option<Field>)
    ensures f == One(b)
  {
    hide ReadFrom;
    var k := ReadVarintLoop(b);
    if k.Bad? { return None; }
    var num, wire := KeyNumber(k.v), KeyWire(k.v);
    if num == 0 || num >= TWO29 || wire == 3 || wire == 4 { return None; }
    var payload := PayloadSwitch(b[k.n..], wire);
    if payload.None? { return None; }
    var i := k.n + payload.value.skip;
    var end := i + payload.value.len;
    return Some(Field(num, wire, b[..end], b[i..end]));
  }

  method ParseLoop(b: bytes, depth: nat) returns (r: Result<seq<Field>>)
    ensures r == Parse(b, depth)
  {
    hide One;
    if depth > MAX_DEPTH {
      return Err(Malformed);
    }
    var fs: seq<Field>, i: nat := [], 0;
    FieldsStart(b);
    while i < |b|
      invariant i <= |b| && |fs| <= MAX_FIELDS
      invariant Fields(b) == Prepend(fs, Fields(b[i..]))
      decreases |b| - i
    {
      var f := ReadField(b[i..]);
      if f.None? { return Err(Malformed); }
      FieldsStep(b, fs, i);
      fs := fs + [f.value];
      i := i + |f.value.raw|;
      if |fs| > MAX_FIELDS { return Err(Malformed); }
    }
    assert b[i..] == [] && fs + [] == fs;
    return Ok(fs);
  }

  lemma FieldsStart(b: bytes)
    ensures Fields(b) == Prepend([], Fields(b[0..]))
  {
    assert b[0..] == b;
    if Fields(b).Some? { assert [] + Fields(b).value == Fields(b).value; }
  }

  lemma FieldsStep(b: bytes, fs: seq<Field>, i: nat)
    requires i < |b| && One(b[i..]).Some?
    ensures var f := One(b[i..]).value;
      Prepend(fs, Fields(b[i..])) == Prepend(fs + [f], Fields(b[i + |f.raw|..]))
  {
    hide One;
    var f := One(b[i..]).value;
    DropOfDrop(b, i, |f.raw|);
    PrependPrepend(fs, [f], Fields(b[i + |f.raw|..]));
  }

  /** The field whose key, length prefix and value are the given parts of `b`. */
  lemma OneReads(b: bytes, key: nat, head: bytes, size: bytes, value: bytes, rest: bytes)
    requires b == head + size + value + rest
    requires ReadVarint(b) == Got(key, |head|) && !KeyRefused(key)
    requires Payload(size + value + rest, KeyWire(key)) == Some(Extent(|size|, |value|))
    ensures One(b) == Some(Field(KeyNumber(key), KeyWire(key), head + size + value, value))
  {
    hide ReadFrom;
    assert b[|head|..] == size + value + rest;
    assert b[..|head| + |size| + |value|] == head + size + value;
    assert b[|head| + |size|..|head| + |size| + |value|] == value;
  }

  lemma PrependPrepend(a: seq<Field>, b: seq<Field>, t: Option<seq<Field>>)
    ensures Prepend(a, Prepend(b, t)) == Prepend(a + b, t)
  {
    if t.Some? { assert a + (b + t.value) == (a + b) + t.value; }
  }

  // ---- parsing and printing are inverse ----

  /** A field whose raw bytes parse back to it and to nothing else. */
  predicate WellFormed(f: Field) {
    One(f.raw) == Some(f)
  }

  ghost predicate AllWellFormed(fs: seq<Field>) {
    forall i | 0 <= i < |fs| :: WellFormed(fs[i])
  }

  function Concat(fs: seq<Field>): bytes {
    if fs == [] then [] else fs[0].raw + Concat(fs[1..])
  }

  lemma {:induction false} ConcatAppend(a: seq<Field>, b: seq<Field>)
    ensures Concat(a + b) == Concat(a) + Concat(b)
  {
    if a == [] {
      assert a + b == b;
    } else {
      assert (a + b)[1..] == a[1..] + b;
      ConcatAppend(a[1..], b);
    }
  }

  lemma PayloadLocal(b: bytes, wire: nat, rest: bytes)
    requires Payload(b, wire).Some?
    ensures var e := Payload(b, wire).value;
      Payload(b[..e.skip + e.len] + rest, wire) == Some(e)
  {
    hide ReadFrom;
    var e := Payload(b, wire).value;
    if wire == 0 || wire == 2 {
      var n := ReadVarint(b).n;
      ReadVarintLocal(b, b[n..e.skip + e.len] + rest);
      assert b[..n] + (b[n..e.skip + e.len] + rest) == b[..e.skip + e.len] + rest;
    }
  }

  /** One field is recognised by its own bytes, whatever follows. */
  lemma OneLocal(b: bytes, rest: bytes)
    requires One(b).Some?
    ensures One(One(b).value.raw + rest) == One(b)
  {
    hide ReadFrom, Payload, KeyRefused, KeyNumber, KeyWire;
    var f := One(b).value;
    var Got(key, n) := ReadVarint(b);
    var Extent(skip, len) := Payload(b[n..], KeyWire(key)).value;
    var head, size := b[..n], b[n..n + skip];
    CutInThree(b, n, n + skip, n + skip + len);
    PayloadLocal(b[n..], KeyWire(key), rest);
    ReadVarintLocal(b, size + f.value + rest);
    Assoc(head + size, f.value, rest);
    Assoc(head, size, f.value + rest);
    Assoc(size, f.value, rest);
    OneReads(f.raw + rest, key, head, size, f.value, rest);
  }

  /** Parsing loses nothing: the raw parts of the fields, in order, are the message. */
  lemma {:induction false} ConcatOfFields(b: bytes)
    requires Fields(b).Some?
    ensures Concat(Fields(b).value) == b && AllWellFormed(Fields(b).value)
  {
    hide One;
    if b != [] {
      var f := One(b).value;
      OneLocal(b, []);
      assert f.raw + [] == f.raw;
      ConcatOfFields(b[|f.raw|..]);
      assert Fields(b).value[1..] == Fields(b[|f.raw|..]).value;
    }
  }

  /** Parsing invents nothing: well-formed fields, printed one after the other, parse to themselves. */
  lemma {:induction false} FieldsOfConcat(fs: seq<Field>)
    requires AllWellFormed(fs)
    ensures Fields(Concat(fs)) == Some(fs)
  {
    hide One;
    if fs != [] {
      assert WellFormed(fs[0]);
      FieldsOfConcat(fs[1..]);
      OneLocal(fs[0].raw, Concat(fs[1..]));
      assert Concat(fs)[|fs[0].raw|..] == Concat(fs[1..]);
      assert [fs[0]] + fs[1..] == fs;
    }
  }

  // ---- printers ----

  function Key(num: nat, wire: nat): bytes
    requires wire < 8
  {
    EncVarint(num * 8 + wire)
  }

  function VarField(num: nat, v: nat): Field {
    Field(num, 0, Key(num, 0) + EncVarint(v), EncVarint(v))
  }

  function BytesField(num: nat, x: bytes): Field {
    Field(num, 2, Key(num, 2) + EncVarint(|x|) + x, x)
  }

  lemma KeyParts(num: nat, wire: nat)
    requires 1 <= num < TWO29 && wire in {0, 1, 2, 5}
    ensures var key := num * 8 + wire;
      KeyNumber(key) == num && KeyWire(key) == wire && !KeyRefused(key) && key < TWO32
  {
  }

  lemma VarFieldWellFormed(num: nat, v: nat)
    requires 1 <= num < TWO29 && v < TWO64
    ensures WellFormed(VarField(num, v))
  {
    hide ReadFrom, EncVarint;
    var head, value := Key(num, 0), EncVarint(v);
    KeyParts(num, 0);
    VarintRoundTrip(num * 8, value);
    VarintRoundTrip(v, []);
    assert [] + value + [] == value == value + [];
    assert head + value == head + [] + value == head + [] + value + [];
    OneReads(head + value, num * 8, head, [], value, []);
  }

  lemma BytesFieldWellFormed(num: nat, x: bytes)
    requires 1 <= num < TWO29 && |x| < TWO64
    ensures WellFormed(BytesField(num, x))
  {
    hide ReadFrom, EncVarint;
    var head, size := Key(num, 2), EncVarint(|x|);
    KeyParts(num, 2);
    VarintRoundTrip(num * 8 + 2, size + x);
    VarintRoundTrip(|x|, x);
    assert size + x + [] == size + x;
    assert head + (size + x) == head + size + x == head + size + x + [];
    OneReads(head + size + x, num * 8 + 2, head, size, x, []);
  }

  // ---- what is a field ----

  /** Small numbers have a key of one byte: three bits of wire type below the number. */
  lemma SmallKey(num: nat, wire: nat)
    requires num < 16 && wire < 8
    ensures Key(num, wire) == [(num * 8 + wire) as byte]
  {
  }

  /** A field without a length: its key, then the value. */
  lemma FixedReads(num: nat, wire: nat, x: bytes)
    requires 1 <= num < TWO29 && wire in {1, 5} && x != []
    ensures One(Key(num, wire) + x) ==
      var size := if wire == 1 then 8 else 4;
      if |x| < size then None else Some(Field(num, wire, Key(num, wire) + x[..size], x[..size]))
  {
    hide ReadFrom, EncVarint;
    var head, key := Key(num, wire), num * 8 + wire;
    KeyParts(num, wire);
    VarintRoundTrip(key, x);
    var size := if wire == 1 then 8 else 4;
    assert (head + x)[|head|..] == x;
    if |x| >= size {
      assert head + x == head + [] + x[..size] + x[size..];
      assert [] + x[..size] + x[size..] == x;
      OneReads(head + x, key, head, [], x[..size], x[size..]);
      assert head + [] + x[..size] == head + x[..size];
    }
  }

  /** A fixed64 has eight bytes and a fixed32 four, neither more nor less. */
  lemma FixedFieldsExactly(num: nat, x: bytes)
    requires 1 <= num < 0x2000_0000
    ensures WellFormed(Field(num, 1, Key(num, 1) + x, x)) <==> |x| == 8
    ensures WellFormed(Field(num, 5, Key(num, 5) + x, x)) <==> |x| == 4
  {
    hide ReadFrom, EncVarint, One;
    if x == [] {
      NoEmptyField(Field(num, 1, Key(num, 1) + x, x));
      NoEmptyField(Field(num, 5, Key(num, 5) + x, x));
    } else {
      FixedReads(num, 1, x);
      FixedReads(num, 5, x);
      assert |x| == 8 ==> x[..8] == x;
      assert |x| == 4 ==> x[..4] == x;
    }
  }

  lemma NoEmptyField(f: Field)
    requires f.value == [] && f.wire in {1, 5}
    ensures !WellFormed(f)
  {
    hide ReadFrom;
  }

  /** Which keys begin a field: the wire type is 0, 1, 2 or 5, and the low 32 bits of the number are 1 to 2^29 - 1. */
  lemma AcceptedKeys(num: nat, wire: nat, rest: bytes)
    requires wire < 8 && num * 8 + wire < TWO64
    ensures One(Key(num, wire) + rest).Some? ==> wire in {0, 1, 2, 5} && 1 <= num % 0x1_0000_0000 < 0x2000_0000
    ensures One(Key(num, wire) + rest).Some? ==> One(Key(num, wire) + rest).value.num == num % 0x1_0000_0000
    ensures wire in {0, 1, 2, 5} && 1 <= num % 0x1_0000_0000 < 0x2000_0000 && |rest| >= 8 && rest[0] == 0 ==>
      One(Key(num, wire) + rest).Some?
  {
    hide ReadFrom, EncVarint;
    var key, head := num * 8 + wire, Key(num, wire);
    VarintRoundTrip(key, rest);
    assert (head + rest)[|head|..] == rest;
    assert key / 8 == num && key % 8 == wire;
    if |rest| >= 8 && rest[0] == 0 {
      LittleEndian(0, rest[1..]);
      assert [0] + rest[1..] == rest;
    }
  }

  /** What is parsed: at most 10000 fields, no deeper than level 8. */
  lemma ParseLimits(b: bytes, depth: nat)
    ensures Parse(b, depth).Ok? <==> depth <= 8 && Fields(b).Some? && |Fields(b).value| <= 10000
    ensures Parse(b, depth).Ok? ==> Parse(b, depth).value == Fields(b).value
  {
    hide Fields;
  }
}
