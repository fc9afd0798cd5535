/**
 Every signed message of the crates is built from the same few pieces: literal domain tags, fixed-width
 integers, fixed-size digests, length-prefixed strings, presence bytes, counted lists and length-prefixed
 sub-messages. `Schema` names those pieces, and the two theorems at the end hold for all of them at once:
 decoding inverts encoding whatever follows, and nothing but an encoding decodes.
 */
module Codec {
  import opened Prelude

  datatype Order = Little | Big

  datatype Schema =
    | Const(bytes: Bytes)                        // a domain tag
    | Nat(order: Order, width: nat)              // `to_le_bytes` / `to_be_bytes`
    | Exact(len: nat)                            // a fixed-size array
    | Blob(order: Order)                         // u64 length, then the bytes
    | Flag                                       // `u8::from(bool)`
    | Opt(inner: Schema)                         // 0, or 1 and the value
    | Many(order: Order, item: Schema)           // u64 count, then the items
    | Framed(order: Order, inner: Schema)        // u64 length of the encoding, then the encoding
    | Record(fields: seq<Schema>)

  datatype Value =
    | Unit
    | Num(n: nat)
    | Raw(b: Bytes)
    | Bit(on: bool)
    | Absent
    | Present(v: Value)
    | Items(vs: seq<Value>)

  function Pow256(width: nat): nat {
    if width == 0 then 1 else 256 * Pow256(width - 1)
  }

  function EncodeNat(order: Order, width: nat, n: nat): (b: Bytes)
    requires n < Pow256(width)
    ensures |b| == width
  {
    if width == 0 then []
    else
      var rest := EncodeNat(order, width - 1, n / 256);
      if order.Little? then [n % 256] + rest else rest + [n % 256]
  }

  function DecodeNat(order: Order, b: Bytes): (n: nat)
    ensures n < Pow256(|b|)
  {
    if b == [] then 0
    else if order.Little? then b[0] + 256 * DecodeNat(order, b[1..])
    else b[|b| - 1] + 256 * DecodeNat(order, b[..|b| - 1])
  }

  predicate Conforms(s: Schema, v: Value)
    decreases s, 0
  {
    match s
    case Const(_) => v.Unit?
    case Nat(_, width) => v.Num? && v.n < Pow256(width)
    case Exact(len) => v.Raw? && |v.b| == len
    case Blob(_) => v.Raw? && |v.b| < U64
    case Flag => v.Bit?
    case Opt(inner) => v.Absent? || (v.Present? && Conforms(inner, v.v))
    case Many(_, item) => v.Items? && |v.vs| < U64 && ConformItems(item, v.vs)
    case Framed(_, inner) => Conforms(inner, v) && |Encode(inner, v)| < U64
    case Record(fields) => v.Items? && ConformFields(fields, v.vs)
  }

  predicate ConformItems(item: Schema, vs: seq<Value>)
    decreases item, |vs| + 1
  {
    vs == [] || (Conforms(item, vs[0]) && ConformItems(item, vs[1..]))
  }

  predicate ConformFields(fields: seq<Schema>, vs: seq<Value>)
    decreases fields, 0
  {
    && |fields| == |vs|
    && (fields == [] || (Conforms(fields[0], vs[0]) && ConformFields(fields[1..], vs[1..])))
  }

  lemma {:induction false} ConformsEach(fields: seq<Schema>, vs: seq<Value>)
    requires |fields| == |vs|
    requires forall k | 0 <= k < |fields| :: Conforms(fields[k], vs[k])
    ensures ConformFields(fields, vs)
  {
    if fields == [] {
    } else {
      ConformsEach(fields[1..], vs[1..]);
    }
  }

  lemma {:induction false} ItemsConformEach(item: Schema, vs: seq<Value>)
    requires forall k | 0 <= k < |vs| :: Conforms(item, vs[k])
    ensures ConformItems(item, vs)
  {
    if vs == [] {
    } else {
      ItemsConformEach(item, vs[1..]);
    }
  }

  lemma WidthOf8()
    ensures Pow256(8) == U64 && Pow256(4) == U32
  {
    assert Pow256(2) == 256 * 256;
    assert Pow256(4) == 256 * 256 * Pow256(2);
    assert Pow256(6) == 256 * 256 * Pow256(4);
    assert Pow256(8) == 256 * 256 * Pow256(6);
  }

  function Length(order: Order, n: nat): (b: Bytes)
    requires n < U64
    ensures |b| == 8
  {
    WidthOf8();
    EncodeNat(order, 8, n)
  }

  function Encode(s: Schema, v: Value): Bytes
    requires Conforms(s, v)
    decreases s, 1
  {
    match s
    case Const(bytes) => bytes
    case Nat(order, width) => EncodeNat(order, width, v.n)
    case Exact(_) => v.b
    case Blob(order) => Length(order, |v.b|) + v.b
    case Flag => [if v.on then 1 else 0]
    case Opt(inner) => if v.Absent? then [0] else [1] + Encode(inner, v.v)
    case Many(order, item) => Length(order, |v.vs|) + EncodeItems(item, v.vs)
    case Framed(order, inner) => Length(order, |Encode(inner, v)|) + Encode(inner, v)
    case Record(fields) => EncodeFields(fields, v.vs)
  }

  function EncodeItems(item: Schema, vs: seq<Value>): Bytes
    requires ConformItems(item, vs)
    decreases item, |vs| + 2
  {
    if vs == [] then [] else Encode(item, vs[0]) + EncodeItems(item, vs[1..])
  }

  function EncodeFields(fields: seq<Schema>, vs: seq<Value>): Bytes
    requires ConformFields(fields, vs)
    decreases fields, 1
  {
    if fields == [] then [] else Encode(fields[0], vs[0]) + EncodeFields(fields[1..], vs[1..])
  }

  // ---- Decoding ----

  function DecodeLength(order: Order, b: Bytes): Option<(nat, Bytes)> {
    if |b| < 8 then None else Some((DecodeNat(order, b[..8]), b[8..]))
  }

  function Decode(s: Schema, b: Bytes): Option<(Value, Bytes)>
    decreases s, 1
  {
    match s
    case Const(bytes) => if bytes <= b then Some((Unit, b[|bytes|..])) else None
    case Nat(order, width) =>
      if |b| < width then None else Some((Num(DecodeNat(order, b[..width])), b[width..]))
    case Exact(len) =>
      if |b| < len then None else Some((Raw(b[..len]), b[len..]))
    case Blob(order) =>
      (match DecodeLength(order, b)
       case None => None
       case Some((n, r)) => if |r| < n then None else Some((Raw(r[..n]), r[n..])))
    case Flag =>
      if b == [] || b[0] > 1 then None else Some((Bit(b[0] == 1), b[1..]))
    case Opt(inner) =>
      if b == [] || b[0] > 1 then None
      else if b[0] == 0 then Some((Absent, b[1..]))
      else
        (match Decode(inner, b[1..])
         case None => None
         case Some((v, r)) => Some((Present(v), r)))
    case Many(order, item) =>
      (match DecodeLength(order, b)
       case None => None
       case Some((n, r)) =>
         match DecodeItems(item, n, r)
         case None => None
         case Some((vs, r')) => Some((Items(vs), r')))
    case Framed(order, inner) =>
      (match DecodeLength(order, b)
       case None => None
       case Some((n, r)) =>
         if |r| < n then None else
         match Decode(inner, r[..n])
         case None => None
         case Some((v, left)) => if left == [] then Some((v, r[n..])) else None)
    case Record(fields) =>
      (match DecodeFields(fields, b)
       case None => None
       case Some((vs, r)) => Some((Items(vs), r)))
  }

  function DecodeItems(item: Schema, n: nat, b: Bytes): Option<(seq<Value>, Bytes)>
    decreases item, n + 2
  {
    if n == 0 then Some(([], b)) else
    match Decode(item, b)
    case None => None
    case Some((v, r)) =>
      match DecodeItems(item, n - 1, r)
      case None => None
      case Some((vs, r')) => Some(([v] + vs, r'))
  }

  function DecodeFields(fields: seq<Schema>, b: Bytes): Option<(seq<Value>, Bytes)>
    decreases fields, 0
  {
    if fields == [] then Some(([], b)) else
    match Decode(fields[0], b)
    case None => None
    case Some((v, r)) =>
      match DecodeFields(fields[1..], r)
      case None => None
      case Some((vs, r')) => Some(([v] + vs, r'))
  }

  // ---- Fixed-width integers ----

  lemma {:induction false} NatRoundTrip(order: Order, width: nat, n: nat)
    requires n < Pow256(width)
    ensures DecodeNat(order, EncodeNat(order, width, n)) == n
  {
    if width == 0 {
    } else {
      NatRoundTrip(order, width - 1, n / 256);
      var rest := EncodeNat(order, width - 1, n / 256);
      var b := EncodeNat(order, width, n);
      assert if order.Little? then b[1..] == rest else b[..|b| - 1] == rest;
    }
  }

  lemma LowByte(low: byte, high: nat)
    ensures (low + 256 * high) % 256 == low && (low + 256 * high) / 256 == high
  {
  }

  lemma EncodeNatStep(order: Order, width: nat, low: byte, high: nat)
    requires high < Pow256(width)
    ensures low + 256 * high < Pow256(width + 1)
    ensures var rest := EncodeNat(order, width, high);
            EncodeNat(order, width + 1, low + 256 * high) == if order.Little? then [low] + rest else rest + [low]
  {
    LowByte(low, high);
  }

  lemma {:induction false} NatIsOnto(order: Order, b: Bytes)
    ensures EncodeNat(order, |b|, DecodeNat(order, b)) == b
  {
    if b == [] {
    } else if order.Little? {
      NatIsOnto(order, b[1..]);
      EncodeNatStep(order, |b| - 1, b[0], DecodeNat(order, b[1..]));
    } else {
      var init := b[..|b| - 1];
      NatIsOnto(order, init);
      EncodeNatStep(order, |b| - 1, b[|b| - 1], DecodeNat(order, init));
    }
  }

  lemma QuotientUnique(n: nat, d: nat, q: nat, r: nat)
    requires r < d && n == d * q + r
    ensures n / d == q
  {
    var k := n / d - q;
    assert d * k == r - n % d;
    assert 0 < d * k + d && d * k < d;
  }

  lemma NestedDivision(n: nat, d: nat)
    requires d >= 1
    ensures n / 256 / d == n / (256 * d)
  {
    var q, r := n / 256 / d, n / 256 % d;
    var rest := 256 * r + n % 256;
    assert n == 256 * d * q + rest by {
      assert n / 256 == d * q + r;
    }
    assert 0 <= rest < 256 * d;
    QuotientUnique(n, 256 * d, q, rest);
  }

  /** Little-endian bytes are the digits of the number to base 256, lowest first. */
  lemma {:induction false} LittleAt(width: nat, n: nat, i: nat)
    requires n < Pow256(width) && i < width
    ensures Pow256(i) >= 1 && EncodeNat(Little, width, n)[i] == n / Pow256(i) % 256
  {
    if i == 0 {
    } else {
      LittleAt(width - 1, n / 256, i - 1);
      NestedDivision(n, Pow256(i - 1));
    }
  }

  /** Big-endian bytes are the little-endian ones in reverse. */
  lemma {:induction false} BigIsReversed(width: nat, n: nat, i: nat)
    requires n < Pow256(width) && i < width
    ensures EncodeNat(Big, width, n)[width - 1 - i] == EncodeNat(Little, width, n)[i]
  {
    if i == 0 {
    } else {
      BigIsReversed(width - 1, n / 256, i - 1);
    }
  }

  lemma LengthRoundTrip(order: Order, n: nat, rest: Bytes)
    requires n < U64
    ensures DecodeLength(order, Length(order, n) + rest) == Some((n, rest))
  {
    WidthOf8();
    NatRoundTrip(order, 8, n);
    var b := Length(order, n) + rest;
    assert b[..8] == Length(order, n) && b[8..] == rest;
  }

  lemma LengthIsOnto(order: Order, b: Bytes)
    requires |b| >= 8
    ensures var n := DecodeNat(order, b[..8]); n < U64 && b == Length(order, n) + b[8..]
  {
    WidthOf8();
    NatIsOnto(order, b[..8]);
  }

  // ---- Decoding inverts encoding ----

  lemma DecodeEncodeNat(order: Order, width: nat, v: Value, rest: Bytes)
    requires Conforms(Nat(order, width), v)
    ensures Decode(Nat(order, width), Encode(Nat(order, width), v) + rest) == Some((v, rest))
  {
    NatRoundTrip(order, width, v.n);
    var body := EncodeNat(order, width, v.n);
    assert (body + rest)[..width] == body && (body + rest)[width..] == rest;
  }

  lemma Prefixed(order: Order, body: Bytes, rest: Bytes)
    requires |body| < U64
    ensures var b := Length(order, |body|) + body + rest;
            && DecodeLength(order, b) == Some((|body|, body + rest))
            && (body + rest)[..|body|] == body
            && (body + rest)[|body|..] == rest
  {
    assert Length(order, |body|) + body + rest == Length(order, |body|) + (body + rest);
    LengthRoundTrip(order, |body|, body + rest);
  }

  /** Whatever bytes follow, decoding an encoded value returns that value and those bytes. */
  lemma {:induction false} DecodeEncode(s: Schema, v: Value, rest: Bytes)
    requires Conforms(s, v)
    ensures Decode(s, Encode(s, v) + rest) == Some((v, rest))
    decreases s, 1
  {
    match s
    case Const(bytes) =>
    case Nat(order, width) => DecodeEncodeNat(order, width, v, rest);
    case Exact(len) =>
    case Blob(order) => Prefixed(order, v.b, rest);
    case Flag =>
    case Opt(inner) => DecodeEncodeOpt(inner, v, rest);
    case Many(order, item) => DecodeEncodeMany(order, item, v, rest);
    case Framed(order, inner) => DecodeEncodeFramed(order, inner, v, rest);
    case Record(fields) => DecodeEncodeFields(fields, v.vs, rest);
  }

  lemma {:induction false} DecodeEncodeOpt(inner: Schema, v: Value, rest: Bytes)
    requires Conforms(Opt(inner), v)
    ensures Decode(Opt(inner), Encode(Opt(inner), v) + rest) == Some((v, rest))
    decreases inner, 2
  {
    var b := Encode(Opt(inner), v) + rest;
    if v.Absent? {
      assert b[1..] == rest;
    } else {
      assert b[1..] == Encode(inner, v.v) + rest;
      DecodeEncode(inner, v.v, rest);
    }
  }

  lemma {:induction false} DecodeEncodeMany(order: Order, item: Schema, v: Value, rest: Bytes)
    requires Conforms(Many(order, item), v)
    ensures Decode(Many(order, item), Encode(Many(order, item), v) + rest) == Some((v, rest))
    decreases item, |v.vs| + 3
  {
    var body := EncodeItems(item, v.vs);
    assert Encode(Many(order, item), v) + rest == Length(order, |v.vs|) + (body + rest);
    LengthRoundTrip(order, |v.vs|, body + rest);
    DecodeEncodeItems(item, v.vs, rest);
  }

  lemma {:induction false} DecodeEncodeFramed(order: Order, inner: Schema, v: Value, rest: Bytes)
    requires Conforms(Framed(order, inner), v)
    ensures Decode(Framed(order, inner), Encode(Framed(order, inner), v) + rest) == Some((v, rest))
    decreases inner, 2
  {
    var body := Encode(inner, v);
    Prefixed(order, body, rest);
    DecodeEncode(inner, v, []);
    assert body + [] == body;
  }

  lemma {:induction false} DecodeEncodeItems(item: Schema, vs: seq<Value>, rest: Bytes)
    requires ConformItems(item, vs)
    ensures DecodeItems(item, |vs|, EncodeItems(item, vs) + rest) == Some((vs, rest))
    decreases item, |vs| + 2
  {
    if vs == [] {
      assert EncodeItems(item, vs) + rest == rest;
    } else {
      var tail := EncodeItems(item, vs[1..]) + rest;
      assert EncodeItems(item, vs) + rest == Encode(item, vs[0]) + tail;
      DecodeEncode(item, vs[0], tail);
      DecodeEncodeItems(item, vs[1..], rest);
      assert [vs[0]] + vs[1..] == vs;
    }
  }

  lemma {:induction false} DecodeEncodeFields(fields: seq<Schema>, vs: seq<Value>, rest: Bytes)
    requires ConformFields(fields, vs)
    ensures DecodeFields(fields, EncodeFields(fields, vs) + rest) == Some((vs, rest))
    decreases fields, 0
  {
    if fields == [] {
      assert EncodeFields(fields, vs) + rest == rest;
    } else {
      var tail := EncodeFields(fields[1..], vs[1..]) + rest;
      assert EncodeFields(fields, vs) + rest == Encode(fields[0], vs[0]) + tail;
      DecodeEncode(fields[0], vs[0], tail);
      DecodeEncodeFields(fields[1..], vs[1..], rest);
      assert [vs[0]] + vs[1..] == vs;
    }
  }

  // ---- Nothing else decodes ----

  lemma EncodeDecodeBlob(order: Order, b: Bytes)
    requires Decode(Blob(order), b).Some?
    ensures var (v, rest) := Decode(Blob(order), b).value;
            Conforms(Blob(order), v) && b == Encode(Blob(order), v) + rest
  {
    LengthIsOnto(order, b);
    var n, r := DecodeNat(order, b[..8]), b[8..];
    assert Decode(Blob(order), b).value == (Raw(r[..n]), r[n..]);
    assert b == Length(order, n) + r[..n] + r[n..];
  }

  /** Bytes that decode are the encoding of the decoded value, followed by what was left over. */
  lemma {:induction false} EncodeDecode(s: Schema, b: Bytes)
    requires Decode(s, b).Some?
    ensures var (v, rest) := Decode(s, b).value; Conforms(s, v) && b == Encode(s, v) + rest
    decreases s, 1
  {
    match s
    case Const(bytes) =>
    case Nat(order, width) => NatIsOnto(order, b[..width]);
    case Exact(len) =>
    case Blob(order) => EncodeDecodeBlob(order, b);
    case Flag =>
    case Opt(inner) => EncodeDecodeOpt(inner, b);
    case Many(order, item) => EncodeDecodeMany(order, item, b);
    case Framed(order, inner) => EncodeDecodeFramed(order, inner, b);
    case Record(fields) => EncodeDecodeFields(fields, b);
  }

  lemma {:induction false} EncodeDecodeOpt(inner: Schema, b: Bytes)
    requires Decode(Opt(inner), b).Some?
    ensures var (v, rest) := Decode(Opt(inner), b).value;
            Conforms(Opt(inner), v) && b == Encode(Opt(inner), v) + rest
    decreases inner, 2
  {
    if b[0] == 1 {
      EncodeDecode(inner, b[1..]);
      var (v, rest) := Decode(inner, b[1..]).value;
      assert b == [1] + Encode(inner, v) + rest;
    } else {
      assert b == [0] + b[1..];
    }
  }

  lemma {:induction false} EncodeDecodeMany(order: Order, item: Schema, b: Bytes)
    requires Decode(Many(order, item), b).Some?
    ensures var (v, rest) := Decode(Many(order, item), b).value;
            Conforms(Many(order, item), v) && b == Encode(Many(order, item), v) + rest
    decreases item, DecodeNat(order, b[..8]) + 3
  {
    LengthIsOnto(order, b);
    var n := DecodeNat(order, b[..8]);
    EncodeDecodeItems(item, n, b[8..]);
    var (vs, rest) := DecodeItems(item, n, b[8..]).value;
    assert b == Length(order, n) + EncodeItems(item, vs) + rest;
  }

  lemma {:induction false} EncodeDecodeFramed(order: Order, inner: Schema, b: Bytes)
    requires Decode(Framed(order, inner), b).Some?
    ensures var (v, rest) := Decode(Framed(order, inner), b).value;
            Conforms(Framed(order, inner), v) && b == Encode(Framed(order, inner), v) + rest
    decreases inner, 2
  {
    LengthIsOnto(order, b);
    var n, r := DecodeNat(order, b[..8]), b[8..];
    EncodeDecode(inner, r[..n]);
    var v := Decode(inner, r[..n]).value.0;
    assert Decode(Framed(order, inner), b).value == (v, r[n..]);
    assert Encode(inner, v) == r[..n];
    assert b == Length(order, n) + r[..n] + r[n..];
  }

  lemma ItemsCons(item: Schema, v: Value, vs: seq<Value>, rest: Bytes)
    requires Conforms(item, v) && ConformItems(item, vs)
    ensures ConformItems(item, [v] + vs)
    ensures EncodeItems(item, [v] + vs) + rest == Encode(item, v) + (EncodeItems(item, vs) + rest)
  {
    assert ([v] + vs)[1..] == vs;
  }

  lemma {:induction false} EncodeDecodeItems(item: Schema, n: nat, b: Bytes)
    requires DecodeItems(item, n, b).Some?
    ensures var (vs, rest) := DecodeItems(item, n, b).value;
            |vs| == n && ConformItems(item, vs) && b == EncodeItems(item, vs) + rest
    decreases item, n + 2
  {
    if n == 0 {
    } else {
      EncodeDecode(item, b);
      var (v, r) := Decode(item, b).value;
      EncodeDecodeItems(item, n - 1, r);
      var (vs, rest) := DecodeItems(item, n - 1, r).value;
      ItemsCons(item, v, vs, rest);
    }
  }

  lemma {:induction false} EncodeDecodeFields(fields: seq<Schema>, b: Bytes)
    requires DecodeFields(fields, b).Some?
    ensures var (vs, rest) := DecodeFields(fields, b).value;
            ConformFields(fields, vs) && b == EncodeFields(fields, vs) + rest
    decreases fields, 0
  {
    if fields == [] {
    } else {
      EncodeDecode(fields[0], b);
      var (v, r) := Decode(fields[0], b).value;
      EncodeDecodeFields(fields[1..], r);
      var (vs, rest) := DecodeFields(fields, b).value;
      assert vs[1..] == DecodeFields(fields[1..], r).value.0;
    }
  }

  /** Two messages of one schema that agree on their bytes agree on their contents and on what follows. */
  lemma UniqueReading(s: Schema, v: Value, rest: Bytes, v': Value, rest': Bytes)
    requires Conforms(s, v) && Conforms(s, v')
    requires Encode(s, v) + rest == Encode(s, v') + rest'
    ensures v == v' && rest == rest'
  {
    DecodeEncode(s, v, rest);
    DecodeEncode(s, v', rest');
  }

  /** A record starts with the encoding of its first field. */
  lemma FirstField(first: Schema, fields: seq<Schema>, v: Value, vs: seq<Value>)
    requires Conforms(Record(fields), Items(vs))
    requires fields != [] && fields[0] == first && vs != [] && vs[0] == v
    ensures Conforms(first, v) && Encode(first, v) <= Encode(Record(fields), Items(vs))
  {
  }

  // ---- Building a message by appending ----

  /** The buffers `tail` behind a first piece `head`. */
  function Behind(head: Bytes, tail: seq<Bytes>): (w: seq<Bytes>)
    ensures |w| == |tail| + 1 && w[0] == []
    ensures forall i | 0 <= i < |tail| :: w[i + 1] == head + tail[i]
  {
    [[]] + seq(|tail|, i requires 0 <= i < |tail| => head + tail[i])
  }

  lemma BehindStep(head: Bytes, tail: seq<Bytes>, j: nat, piece: Bytes)
    requires j + 1 < |tail| && tail[j + 1] == tail[j] + piece
    ensures Behind(head, tail)[j + 2] == Behind(head, tail)[j + 1] + piece
  {
    assert head + (tail[j] + piece) == (head + tail[j]) + piece;
  }

  /** The buffer after each field of a record has been appended. */
  lemma {:induction false} Stages(fields: seq<Schema>, vs: seq<Value>) returns (w: seq<Bytes>)
    requires ConformFields(fields, vs)
    ensures |w| == |fields| + 1 && w[0] == [] && w[|fields|] == EncodeFields(fields, vs)
    ensures forall k | 0 <= k < |fields| :: Conforms(fields[k], vs[k]) && w[k + 1] == w[k] + Encode(fields[k], vs[k])
  {
    if fields == [] {
      w := [[]];
    } else {
      var rest, vrest := fields[1..], vs[1..];
      var tail := Stages(rest, vrest);
      w := Behind(Encode(fields[0], vs[0]), tail);
      assert w[|fields|] == Encode(fields[0], vs[0]) + tail[|rest|];
      assert w[1] == Encode(fields[0], vs[0]) + tail[0] == w[0] + Encode(fields[0], vs[0]);
      forall k | 0 <= k < |fields|
        ensures Conforms(fields[k], vs[k]) && w[k + 1] == w[k] + Encode(fields[k], vs[k])
      {
        if k > 0 {
          var j := k - 1;
          assert fields[k] == rest[j] && vs[k] == vrest[j];
          BehindStep(Encode(fields[0], vs[0]), tail, j, Encode(rest[j], vrest[j]));
        }
      }
    }
  }

  function Repeated(item: Schema, n: nat): seq<Schema> {
    seq(n, _ => item)
  }

  /** A list is encoded as the record of its items. */
  lemma {:induction false} ItemsAsFields(item: Schema, vs: seq<Value>)
    requires ConformItems(item, vs)
    ensures ConformFields(Repeated(item, |vs|), vs)
    ensures EncodeFields(Repeated(item, |vs|), vs) == EncodeItems(item, vs)
  {
    if vs == [] {
    } else {
      ItemsAsFields(item, vs[1..]);
      assert Repeated(item, |vs|)[1..] == Repeated(item, |vs[1..]|);
    }
  }

  /** The buffer after each item of a list has been appended. */
  lemma ItemStages(item: Schema, vs: seq<Value>) returns (w: seq<Bytes>)
    requires ConformItems(item, vs)
    ensures |w| == |vs| + 1 && w[0] == [] && w[|vs|] == EncodeItems(item, vs)
    ensures forall k | 0 <= k < |vs| :: Conforms(item, vs[k]) && w[k + 1] == w[k] + Encode(item, vs[k])
  {
    ItemsAsFields(item, vs);
    w := Stages(Repeated(item, |vs|), vs);
  }
}
