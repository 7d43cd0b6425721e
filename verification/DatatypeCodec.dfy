/** The binary form of a datatype tree: a printer over the arrays that describe a datatype (section 4.1.13 of
    MPI 3.1) and a parser that advances a cursor, each the inverse of the other. */
module DatatypeCodec {

  type Byte = x: int | 0 <= x < 256

  datatype Result<T> = Ok(value: T) | Error {
    predicate IsFailure() { Error? }

    function PropagateFailure<U>(): Result<U>
      requires Error?
    {
      Error
    }

    function Extract(): T
      requires Ok?
    {
      value
    }
  }

  // ----- integers, least significant byte first -----

  function Pow256(n: nat): nat {
    if n == 0 then 1 else 256 * Pow256(n - 1)
  }

  /** The lowest bytes of a number; a negative one comes out in two's complement. */
  function Bytes(x: int, n: nat): (s: seq<Byte>)
    ensures |s| == n
    decreases n
  {
    if n == 0 then [] else [x % 256] + Bytes(x / 256, n - 1)
  }

  function Value(s: seq<Byte>): nat {
    if s == [] then 0 else s[0] + 256 * Value(s[1..])
  }

  lemma {:induction false} ValueBytes(x: int, n: nat)
    requires x + Pow256(n) >= 0 && x < Pow256(n)
    ensures Value(Bytes(x, n)) == if x < 0 then x + Pow256(n) else x
    decreases n
  {
    if n > 0 {
      ValueBytes(x / 256, n - 1);
      assert Bytes(x, n)[1..] == Bytes(x / 256, n - 1);
    }
  }

  lemma {:induction false} BytesValue(s: seq<Byte>)
    ensures Value(s) < Pow256(|s|) && Bytes(Value(s), |s|) == s
    ensures Bytes(Value(s) - Pow256(|s|), |s|) == s
  {
    if s != [] {
      var v := Value(s[1..]);
      BytesValue(s[1..]);
      LowByte(s[0], v, |s|);
      LowByte(s[0], v - Pow256(|s| - 1), |s|);
    }
  }

  lemma LowByte(b: Byte, v: int, n: nat)
    requires n > 0
    ensures Bytes(b as int + 256 * v, n) == [b] + Bytes(v, n - 1)
  {
    assert (b as int + 256 * v) % 256 == b as int && (b as int + 256 * v) / 256 == v;
  }

  /** The first value of a width that reads as negative. */
  function Half(width: nat): nat {
    if width == 0 then 0 else 128 * Pow256(width - 1)
  }

  predicate Fits(x: int, width: nat) {
    x + Half(width) >= 0 && x < Half(width)
  }

  function IntAt(buf: seq<Byte>, pos: nat, width: nat): int
    requires pos + width <= |buf|
  {
    var n := Value(buf[pos..pos + width]);
    if n >= Half(width) then n - Pow256(width) else n
  }

  lemma IntBack(buf: seq<Byte>, pos: nat, width: nat, x: int)
    requires width > 0 && pos + width <= |buf| && Fits(x, width) && buf[pos..pos + width] == Bytes(x, width)
    ensures IntAt(buf, pos, width) == x
  {
    assert 2 * Half(width) == Pow256(width);
    ValueBytes(x, width);
  }

  lemma IntForth(buf: seq<Byte>, pos: nat, width: nat)
    requires width > 0 && pos + width <= |buf|
    ensures Fits(IntAt(buf, pos, width), width) && Bytes(IntAt(buf, pos, width), width) == buf[pos..pos + width]
  {
    assert 2 * Half(width) == Pow256(width);
    BytesValue(buf[pos..pos + width]);
  }

  // ----- arrays of integers, four or eight bytes wide -----

  type Width = w: nat | w == 4 || w == 8 witness 4

  function Size(n: nat, width: Width): nat {
    if width == 4 then 4 * n else 8 * n
  }

  predicate AllFit(xs: seq<int>, width: nat) {
    forall i :: 0 <= i < |xs| ==> Fits(xs[i], width)
  }

  predicate AllWide(parts: seq<seq<Byte>>, width: Width) {
    forall i :: 0 <= i < |parts| ==> |parts[i]| == width
  }

  /** Equally wide parts, one after the other. */
  function Flat(parts: seq<seq<Byte>>, width: Width): (s: seq<Byte>)
    requires AllWide(parts, width)
    ensures |s| == Size(|parts|, width)
  {
    seq(Size(|parts|, width), k requires 0 <= k < Size(|parts|, width) => parts[k / width][k % width])
  }

  function Parts(xs: seq<int>, width: Width): (p: seq<seq<Byte>>)
    ensures |p| == |xs| && AllWide(p, width)
  {
    seq(|xs|, i requires 0 <= i < |xs| => Bytes(xs[i], width))
  }

  /** All integers of an array, one after the other. */
  function Array(xs: seq<int>, width: Width): (s: seq<Byte>)
    ensures |s| == Size(|xs|, width)
  {
    Flat(Parts(xs, width), width)
  }

  function ArrayAt(buf: seq<Byte>, pos: nat, n: nat, width: Width): (xs: seq<int>)
    requires pos + Size(n, width) <= |buf|
    ensures |xs| == n
  {
    seq(n, i requires 0 <= i < n => IntAt(buf, pos + Size(i, width), width))
  }

  lemma CutAt(buf: seq<Byte>, from: nat, mid: nat, to: nat, x: seq<Byte>, y: seq<Byte>)
    requires from <= mid <= to <= |buf| && |x| == mid - from && |y| == to - mid
    ensures buf[from..to] == x + y <==> buf[from..mid] == x && buf[mid..to] == y
  {
    assert buf[from..to] == buf[from..mid] + buf[mid..to];
    assert (x + y)[..|x|] == x && (x + y)[|x|..] == y;
    assert buf[from..to][..mid - from] == buf[from..mid] && buf[from..to][mid - from..] == buf[mid..to];
  }

  lemma Position(i: nat, k: nat, width: Width)
    requires k < width
    ensures (Size(i, width) + k) / width == i && (Size(i, width) + k) % width == k
  {
  }

  lemma PositionBack(n: nat, k: nat, width: Width)
    requires k < Size(n, width)
    ensures k == Size(k / width, width) + k % width && k / width < n
  {
  }

  lemma FlatMore(parts: seq<seq<Byte>>, p: seq<Byte>, width: Width)
    requires AllWide(parts, width) && |p| == width
    ensures AllWide(parts + [p], width) && Flat(parts + [p], width) == Flat(parts, width) + p
  {
    var all := parts + [p];
    forall k | 0 <= k < Size(|all|, width) ensures Flat(all, width)[k] == (Flat(parts, width) + p)[k] {
      PositionBack(|all|, k, width);
      if k < Size(|parts|, width) {
        PositionBack(|parts|, k, width);
      } else {
        Position(|parts|, k - Size(|parts|, width), width);
      }
    }
  }

  /** Each part has its own place. */
  lemma FlatAt(parts: seq<seq<Byte>>, i: nat, width: Width)
    requires AllWide(parts, width) && i < |parts|
    ensures Size(i, width) + width <= Size(|parts|, width)
    ensures Flat(parts, width)[Size(i, width)..Size(i, width) + width] == parts[i]
  {
    var at := Size(i, width);
    forall k | 0 <= k < width ensures Flat(parts, width)[at + k] == parts[i][k] { ByteAt(parts, i, k, width); }
    assert |Flat(parts, width)[at..at + width]| == width;
  }

  lemma ByteAt(parts: seq<seq<Byte>>, i: nat, k: nat, width: Width)
    requires AllWide(parts, width) && i < |parts| && k < width
    ensures Size(i, width) + k < Size(|parts|, width) && Flat(parts, width)[Size(i, width) + k] == parts[i][k]
  {
    Position(i, k, width);
  }

  /** Bytes cut into parts and put together again. */
  lemma FlatCut(buf: seq<Byte>, pos: nat, parts: seq<seq<Byte>>, width: Width)
    requires AllWide(parts, width) && pos + Size(|parts|, width) <= |buf|
    requires forall i :: 0 <= i < |parts| ==> IsPart(buf, pos, parts, i, width)
    ensures Flat(parts, width) == buf[pos..pos + Size(|parts|, width)]
  {
    forall k | 0 <= k < Size(|parts|, width)
      ensures Flat(parts, width)[k] == buf[pos..pos + Size(|parts|, width)][k]
    {
      PositionBack(|parts|, k, width);
      CutByte(buf, pos, parts, k / width, k % width, width);
    }
  }

  lemma CutByte(buf: seq<Byte>, pos: nat, parts: seq<seq<Byte>>, i: nat, k: nat, width: Width)
    requires AllWide(parts, width) && pos + Size(|parts|, width) <= |buf| && i < |parts| && k < width
    requires IsPart(buf, pos, parts, i, width)
    ensures Size(i, width) + k < Size(|parts|, width)
    ensures Flat(parts, width)[Size(i, width) + k] == buf[pos..pos + Size(|parts|, width)][Size(i, width) + k]
  {
    ByteAt(parts, i, k, width);
    var at := pos + Size(i, width);
    assert parts[i][k] == buf[at..at + width][k];
  }

  ghost predicate IsPart(buf: seq<Byte>, pos: nat, parts: seq<seq<Byte>>, i: nat, width: Width)
    requires i < |parts|
  {
    var at := pos + Size(i, width);
    at + width <= |buf| && parts[i] == buf[at..at + width]
  }

  /** One more integer. */
  lemma ArrayMore(xs: seq<int>, x: int, width: Width)
    ensures Array(xs + [x], width) == Array(xs, width) + Bytes(x, width)
  {
    assert Parts(xs + [x], width) == Parts(xs, width) + [Bytes(x, width)];
    FlatMore(Parts(xs, width), Bytes(x, width), width);
  }

  lemma SliceIn(buf: seq<Byte>, pos: nat, n: nat, from: nat, to: nat)
    requires pos + n <= |buf| && from <= to <= n
    ensures buf[pos..pos + n][from..to] == buf[pos + from..pos + to]
  {
    var a, b := buf[pos..pos + n][from..to], buf[pos + from..pos + to];
    assert |a| == |b| && forall k :: 0 <= k < |a| ==> a[k] == b[k];
  }

  lemma ElementBack(buf: seq<Byte>, pos: nat, width: Width, xs: seq<int>, i: nat)
    requires pos + Size(|xs|, width) <= |buf| && buf[pos..pos + Size(|xs|, width)] == Array(xs, width)
    requires i < |xs| && Fits(xs[i], width)
    ensures pos + Size(i, width) + width <= |buf| && IntAt(buf, pos + Size(i, width), width) == xs[i]
  {
    PartIn(buf, pos, Parts(xs, width), i, width);
    IntBack(buf, pos + Size(i, width), width, xs[i]);
  }

  lemma PartIn(buf: seq<Byte>, pos: nat, parts: seq<seq<Byte>>, i: nat, width: Width)
    requires AllWide(parts, width) && i < |parts| && pos + Size(|parts|, width) <= |buf|
    requires buf[pos..pos + Size(|parts|, width)] == Flat(parts, width)
    ensures pos + Size(i, width) + width <= |buf|
    ensures buf[pos + Size(i, width)..pos + Size(i, width) + width] == parts[i]
  {
    FlatAt(parts, i, width);
    SliceIn(buf, pos, Size(|parts|, width), Size(i, width), Size(i, width) + width);
  }

  lemma ArrayBack(buf: seq<Byte>, pos: nat, width: Width, xs: seq<int>)
    requires AllFit(xs, width) && pos + Size(|xs|, width) <= |buf|
    requires buf[pos..pos + Size(|xs|, width)] == Array(xs, width)
    ensures ArrayAt(buf, pos, |xs|, width) == xs
  {
    forall i | 0 <= i < |xs| ensures ArrayAt(buf, pos, |xs|, width)[i] == xs[i] {
      ElementBack(buf, pos, width, xs, i);
    }
  }

  /** What is read from an array's bytes fits, and prints back as those bytes. */
  lemma ArrayForth(buf: seq<Byte>, pos: nat, n: nat, width: Width)
    requires pos + Size(n, width) <= |buf|
    ensures AllFit(ArrayAt(buf, pos, n, width), width)
    ensures Array(ArrayAt(buf, pos, n, width), width) == buf[pos..pos + Size(n, width)]
  {
    var xs := ArrayAt(buf, pos, n, width);
    var parts := Parts(xs, width);
    forall i | 0 <= i < n ensures Fits(xs[i], width) && IsPart(buf, pos, parts, i, width) {
      IntForth(buf, pos + Size(i, width), width);
    }
    FlatCut(buf, pos, parts, width);
  }

  lemma ArraySplit(buf: seq<Byte>, pos: nat, m: nat, n: nat, width: Width)
    requires pos + Size(m + n, width) <= |buf|
    ensures ArrayAt(buf, pos, m + n, width)
            == ArrayAt(buf, pos, m, width) + ArrayAt(buf, pos + Size(m, width), n, width)
  {
    var first, rest := ArrayAt(buf, pos, m, width), ArrayAt(buf, pos + Size(m, width), n, width);
    forall j | 0 <= j < m + n ensures ArrayAt(buf, pos, m + n, width)[j] == (first + rest)[j] {
      if j >= m { assert Size(j, width) == Size(m, width) + Size(j - m, width); }
    }
  }

  // ----- datatype trees -----

  datatype Combiner =
    | Dup | Contiguous | Vector | HVector | Indexed | HIndexed
    | IndexedBlock | HIndexedBlock | Struct | Subarray | DArray | Resized

  /** The types that MPI has built in, in the order of their codes. */
  datatype Builtin =
    | Char | Short | Int | Long | LongLong | SignedChar | UnsignedChar
    | UnsignedShort | Unsigned | UnsignedLong | UnsignedLongLong | Float | Double | LongDouble
    | RawByte | Packed | WChar | CBool | Int8 | Int16 | Int32
    | Int64 | UInt8 | UInt16 | UInt32 | UInt64 | AInt | Count
    | Offset | FloatInt | DoubleInt | LongInt | ShortInt | TwoInt | LongDoubleInt

  /** A datatype as its envelope and contents give it. */
  datatype Type =
    | Null
    | Named(builtin: Builtin)
    | Derived(combiner: Combiner, ints: seq<int>, addrs: seq<int>, types: seq<Type>)

  const NULL_CODE: Byte := 0xFF
  const FIRST_DERIVED: Byte := 0x40
  const LAST_DERIVED: Byte := 0x4B

  function BuiltinCode(t: Builtin): Byte {
    match t
    case Char => 0x00
    case Short => 0x01
    case Int => 0x02
    case Long => 0x03
    case LongLong => 0x04
    case SignedChar => 0x05
    case UnsignedChar => 0x06
    case UnsignedShort => 0x07
    case Unsigned => 0x08
    case UnsignedLong => 0x09
    case UnsignedLongLong => 0x0A
    case Float => 0x0B
    case Double => 0x0C
    case LongDouble => 0x0D
    case RawByte => 0x0E
    case Packed => 0x0F
    case WChar => 0x10
    case CBool => 0x11
    case Int8 => 0x12
    case Int16 => 0x13
    case Int32 => 0x14
    case Int64 => 0x15
    case UInt8 => 0x16
    case UInt16 => 0x17
    case UInt32 => 0x18
    case UInt64 => 0x19
    case AInt => 0x1A
    case Count => 0x1B
    case Offset => 0x1C
    case FloatInt => 0x1D
    case DoubleInt => 0x1E
    case LongInt => 0x1F
    case ShortInt => 0x20
    case TwoInt => 0x21
    case LongDoubleInt => 0x22
  }

  function BuiltinOf(code: Byte): Result<Builtin> {
    match code
    case 0x00 => Ok(Char)
    case 0x01 => Ok(Short)
    case 0x02 => Ok(Int)
    case 0x03 => Ok(Long)
    case 0x04 => Ok(LongLong)
    case 0x05 => Ok(SignedChar)
    case 0x06 => Ok(UnsignedChar)
    case 0x07 => Ok(UnsignedShort)
    case 0x08 => Ok(Unsigned)
    case 0x09 => Ok(UnsignedLong)
    case 0x0A => Ok(UnsignedLongLong)
    case 0x0B => Ok(Float)
    case 0x0C => Ok(Double)
    case 0x0D => Ok(LongDouble)
    case 0x0E => Ok(RawByte)
    case 0x0F => Ok(Packed)
    case 0x10 => Ok(WChar)
    case 0x11 => Ok(CBool)
    case 0x12 => Ok(Int8)
    case 0x13 => Ok(Int16)
    case 0x14 => Ok(Int32)
    case 0x15 => Ok(Int64)
    case 0x16 => Ok(UInt8)
    case 0x17 => Ok(UInt16)
    case 0x18 => Ok(UInt32)
    case 0x19 => Ok(UInt64)
    case 0x1A => Ok(AInt)
    case 0x1B => Ok(Count)
    case 0x1C => Ok(Offset)
    case 0x1D => Ok(FloatInt)
    case 0x1E => Ok(DoubleInt)
    case 0x1F => Ok(LongInt)
    case 0x20 => Ok(ShortInt)
    case 0x21 => Ok(TwoInt)
    case 0x22 => Ok(LongDoubleInt)
    case _ => Error
  }

  /** Every built-in type is found under its own code, and no other code is in use. */
  lemma BuiltinsExact(t: Builtin, code: Byte)
    ensures BuiltinOf(code) == Ok(t) <==> code == BuiltinCode(t)
    ensures BuiltinOf(code).Ok? <==> code < 0x23
  {
    BuiltinBack(t);
    if code < 0x23 { CodeBack(code); }
  }

  lemma BuiltinBack(t: Builtin)
    ensures BuiltinOf(BuiltinCode(t)) == Ok(t)
  {
  }

  lemma CodeBack(code: Byte)
    requires code < 0x23
    ensures BuiltinOf(code).Ok? && BuiltinCode(BuiltinOf(code).value) == code
  {
  }

  function Code(c: Combiner): (b: Byte)
    ensures FIRST_DERIVED <= b <= LAST_DERIVED
  {
    match c
    case Dup => 0x40
    case Contiguous => 0x41
    case Vector => 0x42
    case HVector => 0x43
    case Indexed => 0x44
    case HIndexed => 0x45
    case IndexedBlock => 0x46
    case HIndexedBlock => 0x47
    case Struct => 0x48
    case Subarray => 0x49
    case DArray => 0x4A
    case Resized => 0x4B
  }

  function CombinerOf(b: Byte): (c: Combiner)
    requires FIRST_DERIVED <= b <= LAST_DERIVED
    ensures Code(c) == b
  {
    if b == 0x40 then Dup else if b == 0x41 then Contiguous else if b == 0x42 then Vector
    else if b == 0x43 then HVector else if b == 0x44 then Indexed else if b == 0x45 then HIndexed
    else if b == 0x46 then IndexedBlock else if b == 0x47 then HIndexedBlock else if b == 0x48 then Struct
    else if b == 0x49 then Subarray else if b == 0x4A then DArray else Resized
  }

  /** The contents of a combiner: how many integers come first, which of them counts the arrays, how many integer
      arrays of that length follow, and then how many single integers; how many addresses, and whether there is
      an array of them; and whether there is one inner type or one for each. */
  datatype Form = Form(head: nat, countAt: int, arrays: nat, tail: nat, addrs: nat, addrArray: bool, manyTypes: bool) {
    predicate Valid() { countAt < head && arrays <= 4 }
  }

  /** In the order of the codes. */
  const FORMS: seq<Form> := [
    /* Dup */ Form(0, -1, 0, 0, 0, false, false),
    /* Contiguous */ Form(1, -1, 0, 0, 0, false, false),
    /* Vector */ Form(3, -1, 0, 0, 0, false, false),
    /* HVector */ Form(2, -1, 0, 0, 1, false, false),
    /* Indexed */ Form(1, 0, 2, 0, 0, false, false),
    /* HIndexed */ Form(1, 0, 1, 0, 0, true, false),
    /* IndexedBlock */ Form(2, 0, 1, 0, 0, false, false),
    /* HIndexedBlock */ Form(2, 0, 0, 0, 0, true, false),
    /* Struct */ Form(1, 0, 1, 0, 0, true, true),
    /* Subarray */ Form(1, 0, 3, 1, 0, false, false),
    /* DArray */ Form(3, 2, 4, 1, 0, false, false),
    /* Resized */ Form(0, -1, 0, 0, 2, false, false)]

  function FormOf(c: Combiner): (f: Form)
    ensures f.Valid()
  {
    FORMS[Code(c) - FIRST_DERIVED]
  }

  /** How many integers, addresses and inner types a combiner has, n being its count of blocks, members or dimensions
      (section 4.1.13 of MPI 3.1). */
  lemma ContentLengths(c: Combiner, n: nat)
    ensures var f := FormOf(c);
            (f.head + MoreInts(f, n), Addrs(f, n), Types(f, n)) ==
            match c
            case Dup => (0, 0, 1)
            case Contiguous => (1, 0, 1)
            case Vector => (3, 0, 1)
            case HVector => (2, 1, 1)
            case Indexed => (2 * n + 1, 0, 1)
            case HIndexed => (n + 1, n, 1)
            case IndexedBlock => (n + 2, 0, 1)
            case HIndexedBlock => (2, n, 1)
            case Struct => (n + 1, n, n)
            case Subarray => (3 * n + 2, 0, 1)
            case DArray => (4 * n + 4, 0, 1)
            case Resized => (0, 2, 1)
  {
    assert FORMS[Code(c) - FIRST_DERIVED] == FormOf(c);
  }

  function Times(k: nat, n: nat): nat
    requires k <= 4
  {
    if k == 0 then 0 else if k == 1 then n else if k == 2 then n + n else if k == 3 then n + n + n else n + n + n + n
  }

  /** The length of the arrays, 0 for combiners without any. */
  function CountOf(f: Form, head: seq<int>): int
    requires |head| >= f.head && f.Valid()
  {
    if f.countAt < 0 then 0 else head[f.countAt]
  }

  function MoreInts(f: Form, n: nat): nat
    requires f.Valid()
  {
    Times(f.arrays, n) + f.tail
  }

  function Addrs(f: Form, n: nat): nat {
    f.addrs + (if f.addrArray then n else 0)
  }

  function Types(f: Form, n: nat): nat {
    if f.manyTypes then n else 1
  }

  /** The contents have the lengths that the form and the count give, and are machine integers. */
  predicate Shaped(f: Form, ints: seq<int>, addrs: seq<int>, types: nat)
    requires f.Valid()
  {
    && |ints| >= f.head && CountOf(f, ints) >= 0
    && |ints| == f.head + MoreInts(f, CountOf(f, ints)) && AllFit(ints, 4)
    && |addrs| == Addrs(f, CountOf(f, ints)) && AllFit(addrs, 8)
    && types == Types(f, CountOf(f, ints))
  }

  /** What decoding a datatype always yields. */
  predicate WellFormed(t: Type) {
    match t
    case Null => true
    case Named(_) => true
    case Derived(c, ints, addrs, types) =>
      Shaped(FormOf(c), ints, addrs, |types|) && forall i :: 0 <= i < |types| ==> WellFormed(types[i])
  }

  // ----- printing -----

  function Serialize(t: Type): (s: seq<Byte>)
    ensures |s| > 0
    decreases t
  {
    match t
    case Null => [NULL_CODE]
    case Named(t) => [BuiltinCode(t)]
    case Derived(c, ints, addrs, types) => [Code(c)] + Array(ints, 4) + Array(addrs, 8) + SerializeAll(types)
  }

  predicate AllWellFormed(ts: seq<Type>) {
    forall i :: 0 <= i < |ts| ==> WellFormed(ts[i])
  }

  function SerializeAll(ts: seq<Type>): seq<Byte>
    decreases ts
  {
    if ts == [] then [] else Serialize(ts[0]) + SerializeAll(ts[1..])
  }

  // ----- parsing -----

  function Parse(buf: seq<Byte>, pos: nat): (r: Result<(Type, nat)>)
    ensures r.Ok? ==> pos < r.value.1 <= |buf|
    decreases |buf| - pos, 0
  {
    if pos >= |buf| then Error
    else if buf[pos] == NULL_CODE then Ok((Null, pos + 1))
    else if buf[pos] < FIRST_DERIVED then
      var t :- BuiltinOf(buf[pos]);
      Ok((Named(t), pos + 1))
    else if buf[pos] > LAST_DERIVED then Error
    else ParseDerived(buf, pos + 1, CombinerOf(buf[pos]))
  }

  /** Below the derived combiners exactly the codes of built-in types parse, each as its type. */
  lemma NamedParsed(code: Byte, rest: seq<Byte>, t: Builtin)
    requires code < FIRST_DERIVED
    ensures Parse([code] + rest, 0) == Ok((Named(t), 1)) <==> code == BuiltinCode(t)
    ensures Parse([code] + rest, 0).Ok? <==> code < 0x23
  {
    BuiltinsExact(t, code);
  }

  function ParseDerived(buf: seq<Byte>, pos: nat, c: Combiner): (r: Result<(Type, nat)>)
    requires pos <= |buf|
    ensures r.Ok? ==> pos <= r.value.1 <= |buf|
    decreases |buf| - pos, |buf| + 3
  {
    match ParseForm(buf, pos, FormOf(c))
    case Error => Error
    case Ok((ints, addrs, types, end)) => Ok((Derived(c, ints, addrs, types), end))
  }

  function ParseForm(buf: seq<Byte>, pos: nat, f: Form): (r: Result<(seq<int>, seq<int>, seq<Type>, nat)>)
    requires pos <= |buf| && f.Valid()
    ensures r.Ok? ==> pos <= r.value.3 <= |buf|
    decreases |buf| - pos, |buf| + 2
  {
    if pos + 4 * f.head > |buf| then Error
    else
      var head := ArrayAt(buf, pos, f.head, 4);
      if CountOf(f, head) < 0 then Error
      else
        var n := CountOf(f, head);
        var p := pos + 4 * f.head;
        var q := p + 4 * MoreInts(f, n);
        var r := q + 8 * Addrs(f, n);
        if r > |buf| then Error
        else
          match ParseAll(buf, r, Types(f, n))
          case Error => Error
          case Ok((types, end)) =>
            Ok((head + ArrayAt(buf, p, MoreInts(f, n), 4), ArrayAt(buf, q, Addrs(f, n), 8), types, end))
  }

  function ParseAll(buf: seq<Byte>, pos: nat, n: nat): (r: Result<(seq<Type>, nat)>)
    requires pos <= |buf|
    ensures r.Ok? ==> pos <= r.value.1 <= |buf| && |r.value.0| == n
    decreases |buf| - pos, 1, n
  {
    if n == 0 then Ok(([], pos))
    else
      match Parse(buf, pos)
      case Error => Error
      case Ok((t, p)) =>
        match ParseAll(buf, p, n - 1)
        case Error => Error
        case Ok((ts, q)) => Ok(([t] + ts, q))
  }

  // ----- the two are inverse -----

  predicate HoldsBytes(buf: seq<Byte>, p: nat, a: seq<Byte>, b: seq<Byte>) {
    var q := p + |a|;
    var r := q + |b|;
    r <= |buf| && buf[p..q] == a && buf[q..r] == b
  }

  /** A code, two arrays and further bytes, one after the other. */
  lemma FourParts(buf: seq<Byte>, pos: nat, end: nat, code: Byte, a: seq<Byte>, b: seq<Byte>, rest: seq<Byte>)
    requires pos + 1 + |a| + |b| + |rest| == end <= |buf|
    ensures buf[pos..end] == [code] + a + b + rest <==>
              buf[pos] == code && HoldsBytes(buf, pos + 1, a, b) && buf[pos + 1 + |a| + |b|..end] == rest
  {
    var q := pos + 1 + |a|;
    var r := q + |b|;
    assert [code] + a + b + rest == [code] + (a + (b + rest));
    CutAt(buf, pos, pos + 1, end, [code], a + (b + rest));
    CutAt(buf, pos + 1, q, end, a, b + rest);
    CutAt(buf, q, r, end, b, rest);
    assert buf[pos..pos + 1] == [buf[pos]];
  }

  /** The bytes of the contents: the integers, then the addresses. */
  ghost predicate Holds(buf: seq<Byte>, p: nat, ints: seq<int>, addrs: seq<int>) {
    AllFit(ints, 4) && AllFit(addrs, 8) && HoldsBytes(buf, p, Array(ints, 4), Array(addrs, 8))
  }

  function After(p: nat, ints: seq<int>, addrs: seq<int>): nat {
    p + Size(|ints|, 4) + Size(|addrs|, 8)
  }

  /** Parsing the contents, given what their bytes hold. */
  lemma {:induction false} FormParsed(buf: seq<Byte>, p: nat, f: Form, ints: seq<int>, addrs: seq<int>,
      types: seq<Type>, end: nat)
    requires f.Valid() && Shaped(f, ints, addrs, |types|) && Holds(buf, p, ints, addrs)
    requires ParseAll(buf, After(p, ints, addrs), |types|) == Ok((types, end))
    ensures ParseForm(buf, p, f) == Ok((ints, addrs, types, end))
  {
    ArrayBack(buf, p, 4, ints);
    ArrayBack(buf, p + 4 * |ints|, 8, addrs);
    ArraySplit(buf, p, f.head, |ints| - f.head, 4);
    var head := ArrayAt(buf, p, f.head, 4);
    assert ints[..f.head] == head && ints[f.head..] == ArrayAt(buf, p + 4 * f.head, |ints| - f.head, 4);
    assert CountOf(f, head) == CountOf(f, ints);
  }

  lemma HoldsRead(buf: seq<Byte>, p: nat, m: nat, n: nat)
    requires p + 4 * m + 8 * n <= |buf|
    ensures Holds(buf, p, ArrayAt(buf, p, m, 4), ArrayAt(buf, p + 4 * m, n, 8))
  {
    ArrayForth(buf, p, m, 4);
    ArrayForth(buf, p + 4 * m, n, 8);
  }

  /** What the bytes of parsed contents hold. */
  lemma ParsedForm(buf: seq<Byte>, p: nat, f: Form)
    requires p <= |buf| && f.Valid() && ParseForm(buf, p, f).Ok?
    ensures var (ints, addrs, types, end) := ParseForm(buf, p, f).value;
            && Shaped(f, ints, addrs, |types|) && Holds(buf, p, ints, addrs)
            && ParseAll(buf, After(p, ints, addrs), |types|) == Ok((types, end))
  {
    var head := ArrayAt(buf, p, f.head, 4);
    var n := CountOf(f, head);
    var m := MoreInts(f, n);
    ArraySplit(buf, p, f.head, m, 4);
    HoldsRead(buf, p, f.head + m, Addrs(f, n));
    var (ints, addrs, types, end) := ParseForm(buf, p, f).value;
    assert ints == ArrayAt(buf, p, f.head + m, 4);
    assert CountOf(f, ints) == n;
  }

  lemma SerializedParts(t: Type)
    requires t.Derived?
    ensures Serialize(t) == [Code(t.combiner)] + Array(t.ints, 4) + Array(t.addrs, 8) + SerializeAll(t.types)
  {
  }

  lemma FittingParts(t: Type)
    requires t.Derived? && WellFormed(t)
    ensures AllFit(t.ints, 4) && AllFit(t.addrs, 8) && AllWellFormed(t.types)
    ensures Shaped(FormOf(t.combiner), t.ints, t.addrs, |t.types|)
  {
  }

  /** A code, contents and further bytes, one after the other. */
  lemma DerivedBytes(buf: seq<Byte>, pos: nat, end: nat, code: Byte, ints: seq<int>, addrs: seq<int>,
      rest: seq<Byte>)
    requires AllFit(ints, 4) && AllFit(addrs, 8) && After(pos + 1, ints, addrs) + |rest| == end <= |buf|
    ensures buf[pos..end] == [code] + Array(ints, 4) + Array(addrs, 8) + rest <==>
              buf[pos] == code && Holds(buf, pos + 1, ints, addrs) && buf[After(pos + 1, ints, addrs)..end] == rest
  {
    FourParts(buf, pos, end, code, Array(ints, 4), Array(addrs, 8), rest);
  }

  /** Parsing what was printed returns the tree and stops right behind it, whatever follows. */
  lemma ParsePrinted(t: Type, buf: seq<Byte>, pos: nat, end: nat)
    requires WellFormed(t) && pos <= end <= |buf| && buf[pos..end] == Serialize(t)
    ensures Parse(buf, pos) == Ok((t, end))
    decreases t, 1
  {
    assert buf[pos] == buf[pos..end][0];
    if t.Derived? {
      ParsePrintedDerived(t, buf, pos, end);
      SameCode(t.combiner, CombinerOf(buf[pos]));
    }
  }

  lemma ParsePrintedDerived(t: Type, buf: seq<Byte>, pos: nat, end: nat)
    requires t.Derived? && WellFormed(t) && pos <= end <= |buf| && buf[pos..end] == Serialize(t)
    ensures ParseForm(buf, pos + 1, FormOf(t.combiner)) == Ok((t.ints, t.addrs, t.types, end))
    ensures buf[pos] == Code(t.combiner)
    decreases t, 0
  {
    assert |buf[pos..end]| == end - pos == |Serialize(t)|;
    SerializedParts(t);
    FittingParts(t);
    DerivedBytes(buf, pos, end, Code(t.combiner), t.ints, t.addrs, SerializeAll(t.types));
    ParseAllPrinted(t.types, buf, After(pos + 1, t.ints, t.addrs), end);
    FormParsed(buf, pos + 1, FormOf(t.combiner), t.ints, t.addrs, t.types, end);
  }

  lemma SameCode(c: Combiner, d: Combiner)
    ensures Code(c) == Code(d) ==> c == d
  {
  }

  lemma {:induction false} ParseAllPrinted(ts: seq<Type>, buf: seq<Byte>, pos: nat, end: nat)
    requires AllWellFormed(ts) && pos <= end <= |buf| && buf[pos..end] == SerializeAll(ts)
    ensures ParseAll(buf, pos, |ts|) == Ok((ts, end))
    decreases ts, 2
  {
    if ts != [] {
      var t, rest := ts[0], ts[1..];
      var mid := FirstPart(ts, buf, pos, end);
      ParsePrinted(t, buf, pos, mid);
      ParseAllPrinted(rest, buf, mid, end);
      ParseMore(buf, pos, t, mid, rest, end);
      assert [t] + rest == ts;
    }
  }

  /** Where the first tree's bytes end. */
  lemma FirstPart(ts: seq<Type>, buf: seq<Byte>, pos: nat, end: nat) returns (mid: nat)
    requires ts != [] && pos <= end <= |buf| && buf[pos..end] == SerializeAll(ts)
    ensures pos <= mid <= end && buf[pos..mid] == Serialize(ts[0]) && buf[mid..end] == SerializeAll(ts[1..])
  {
    mid := pos + |Serialize(ts[0])|;
    assert |buf[pos..end]| == end - pos;
    CutAt(buf, pos, mid, end, Serialize(ts[0]), SerializeAll(ts[1..]));
  }

  lemma ParseMore(buf: seq<Byte>, pos: nat, t: Type, mid: nat, rest: seq<Type>, end: nat)
    requires pos <= |buf| && Parse(buf, pos) == Ok((t, mid)) && ParseAll(buf, mid, |rest|) == Ok((rest, end))
    ensures ParseAll(buf, pos, |rest| + 1) == Ok(([t] + rest, end))
  {
  }

  /** Whatever parses is well formed and was printed that way. */
  lemma PrintParsed(buf: seq<Byte>, pos: nat)
    requires Parse(buf, pos).Ok?
    ensures var (t, end) := Parse(buf, pos).value; WellFormed(t) && buf[pos..end] == Serialize(t)
    decreases |buf| - pos, 0
  {
    if FIRST_DERIVED <= buf[pos] <= LAST_DERIVED {
      var c := CombinerOf(buf[pos]);
      PrintParsedForm(buf, pos, c);
    } else {
      assert buf[pos..pos + 1] == [buf[pos]];
    }
  }

  lemma PrintParsedForm(buf: seq<Byte>, pos: nat, c: Combiner)
    requires pos < |buf| && buf[pos] == Code(c) && ParseForm(buf, pos + 1, FormOf(c)).Ok?
    ensures var (ints, addrs, types, end) := ParseForm(buf, pos + 1, FormOf(c)).value;
            WellFormed(Derived(c, ints, addrs, types)) && buf[pos..end] == Serialize(Derived(c, ints, addrs, types))
    decreases |buf| - pos - 1, |buf| + 3
  {
    var (ints, addrs, types, end) := ParseForm(buf, pos + 1, FormOf(c)).value;
    ParsedForm(buf, pos + 1, FormOf(c));
    PrintAllParsed(buf, After(pos + 1, ints, addrs), |types|);
    DerivedWellFormed(c, ints, addrs, types);
    PrintParts(buf, pos, end, Derived(c, ints, addrs, types));
  }

  lemma PrintParts(buf: seq<Byte>, pos: nat, end: nat, t: Type)
    requires t.Derived? && pos < |buf| && buf[pos] == Code(t.combiner)
    requires Holds(buf, pos + 1, t.ints, t.addrs) && After(pos + 1, t.ints, t.addrs) <= end <= |buf|
    requires buf[After(pos + 1, t.ints, t.addrs)..end] == SerializeAll(t.types)
    ensures buf[pos..end] == Serialize(t)
  {
    var r := After(pos + 1, t.ints, t.addrs);
    assert |buf[r..end]| == end - r;
    SerializedParts(t);
    DerivedBytes(buf, pos, end, Code(t.combiner), t.ints, t.addrs, SerializeAll(t.types));
  }

  lemma DerivedWellFormed(c: Combiner, ints: seq<int>, addrs: seq<int>, types: seq<Type>)
    requires Shaped(FormOf(c), ints, addrs, |types|) && AllWellFormed(types)
    ensures WellFormed(Derived(c, ints, addrs, types))
  {
    var t := Derived(c, ints, addrs, types);
    assert Shaped(FormOf(t.combiner), t.ints, t.addrs, |t.types|);
    assert forall i :: 0 <= i < |t.types| ==> WellFormed(t.types[i]);
  }

  lemma {:induction false} PrintAllParsed(buf: seq<Byte>, pos: nat, n: nat)
    requires pos <= |buf| && ParseAll(buf, pos, n).Ok?
    ensures var (ts, end) := ParseAll(buf, pos, n).value; AllWellFormed(ts) && buf[pos..end] == SerializeAll(ts)
    decreases |buf| - pos, 1, n
  {
    if n > 0 {
      var t, p, ts, end := ParsedParts(buf, pos, n);
      PrintParsed(buf, pos);
      PrintAllParsed(buf, p, n - 1);
      PrintMore(buf, pos, t, p, ts, end);
    }
  }

  lemma ParsedParts(buf: seq<Byte>, pos: nat, n: nat) returns (t: Type, p: nat, ts: seq<Type>, end: nat)
    requires pos <= |buf| && n > 0 && ParseAll(buf, pos, n).Ok?
    ensures Parse(buf, pos) == Ok((t, p)) && pos < p <= end <= |buf|
    ensures ParseAll(buf, p, n - 1) == Ok((ts, end)) && ParseAll(buf, pos, n) == Ok(([t] + ts, end))
  {
    t, p := Parse(buf, pos).value.0, Parse(buf, pos).value.1;
    ts, end := ParseAll(buf, p, n - 1).value.0, ParseAll(buf, p, n - 1).value.1;
  }

  lemma PrintMore(buf: seq<Byte>, pos: nat, t: Type, mid: nat, rest: seq<Type>, end: nat)
    requires pos <= mid <= end <= |buf| && WellFormed(t) && AllWellFormed(rest)
    requires buf[pos..mid] == Serialize(t) && buf[mid..end] == SerializeAll(rest)
    ensures AllWellFormed([t] + rest) && buf[pos..end] == SerializeAll([t] + rest)
  {
    assert |buf[pos..mid]| == mid - pos && |buf[mid..end]| == end - mid;
    CutAt(buf, pos, mid, end, Serialize(t), SerializeAll(rest));
    assert ([t] + rest)[1..] == rest;
  }

  // ----- main results -----

  /** Parsing succeeds exactly on what was printed: nothing else is accepted, and nothing is read twice. */
  lemma ParseExact(buf: seq<Byte>, pos: nat, t: Type, end: nat)
    ensures Parse(buf, pos) == Ok((t, end)) <==>
              WellFormed(t) && pos <= end <= |buf| && buf[pos..end] == Serialize(t)
  {
    if Parse(buf, pos) == Ok((t, end)) { PrintParsed(buf, pos); }
    if WellFormed(t) && pos <= end <= |buf| && buf[pos..end] == Serialize(t) { ParsePrinted(t, buf, pos, end); }
  }

  /** Every strict prefix of a printed tree is rejected. */
  lemma PrefixRejected(t: Type, n: nat)
    requires WellFormed(t) && n < |Serialize(t)|
    ensures Parse(Serialize(t)[..n], 0).Error?
  {
    var buf, prefix := Serialize(t), Serialize(t)[..n];
    if Parse(prefix, 0).Ok? {
      var (u, end) := Parse(prefix, 0).value;
      PrintParsed(prefix, 0);
      assert buf[0..end] == prefix[0..end] == Serialize(u);
      ParsePrinted(u, buf, 0, end);
      assert buf[0..|buf|] == Serialize(t);
      ParsePrinted(t, buf, 0, |buf|);
    }
  }

  /** Two trees that print alike are the same tree. */
  lemma PrintsApart(t: Type, u: Type)
    requires WellFormed(t) && WellFormed(u) && Serialize(t) == Serialize(u)
    ensures t == u
  {
    var buf := Serialize(t);
    assert buf[0..|buf|] == buf;
    ParsePrinted(t, buf, 0, |buf|);
    ParsePrinted(u, buf, 0, |buf|);
  }

  // ----- the whole message -----

  const MAGIC: nat := 0x46445450

  function Message(t: Type): seq<Byte> {
    Bytes(MAGIC, 4) + Serialize(t)
  }

  function Deserialize(data: seq<Byte>): Result<Type> {
    if |data| < 4 || Value(data[..4]) != MAGIC then Error
    else
      match Parse(data, 4)
      case Error => Error
      case Ok((t, end)) => Ok(t)
  }

  /** A message is read back whatever follows it, and nothing that does not begin with one is accepted. */
  lemma MessageExact(data: seq<Byte>, t: Type)
    ensures Deserialize(data) == Ok(t) <==> WellFormed(t) && Message(t) <= data
  {
    MagicBytes(data);
    if Deserialize(data) == Ok(t) {
      var end := Parse(data, 4).value.1;
      PrintParsed(data, 4);
      assert data[..end] == data[..4] + data[4..end];
      assert Message(t) == data[..end];
    }
    if WellFormed(t) && Message(t) <= data {
      var end := |Message(t)|;
      assert data[..end] == Message(t);
      assert data[..4] == Message(t)[..4] == Bytes(MAGIC, 4);
      assert data[4..end] == Message(t)[4..] == Serialize(t);
      ParsePrinted(t, data, 4, end);
    }
  }

  lemma MagicBytes(data: seq<Byte>)
    ensures |data| >= 4 ==> (Value(data[..4]) == MAGIC <==> data[..4] == Bytes(MAGIC, 4))
  {
    assert Pow256(4) == 0x1_0000_0000;
    ValueBytes(MAGIC, 4);
    if |data| >= 4 { BytesValue(data[..4]); }
  }

  // ----- an example, byte by byte -----

  lemma BytesExample()
    ensures Bytes(2, 4) == [2, 0, 0, 0] && Bytes(-1, 4) == [255, 255, 255, 255] && Bytes(258, 4) == [2, 1, 0, 0]
  {
    assert Bytes(0, 0) == [] && Bytes(-1, 0) == [];
    assert Bytes(0, 1) == [0] && Bytes(-1, 1) == [255];
    assert Bytes(0, 2) == [0, 0] && Bytes(-1, 2) == [255, 255] && Bytes(1, 3) == [1, 0, 0];
    assert Bytes(0, 3) == [0, 0, 0] && Bytes(-1, 3) == [255, 255, 255];
  }

  lemma ThreeInts(a: int, b: int, c: int)
    ensures Array([a, b, c], 4) == Bytes(a, 4) + Bytes(b, 4) + Bytes(c, 4)
  {
    FlatThree(Bytes(a, 4), Bytes(b, 4), Bytes(c, 4));
    assert Parts([a, b, c], 4) == [Bytes(a, 4)] + [Bytes(b, 4)] + [Bytes(c, 4)];
  }

  lemma FlatThree(x: seq<Byte>, y: seq<Byte>, z: seq<Byte>)
    requires |x| == |y| == |z| == 4
    ensures AllWide([x] + [y] + [z], 4) && Flat([x] + [y] + [z], 4) == x + y + z
  {
    FlatMore([], x, 4);
    assert [] + [x] == [x] && Flat([], 4) == [];
    FlatMore([x], y, 4);
    FlatMore([x] + [y], z, 4);
  }

  /** A vector type's three integers, least significant byte first, and a negative one in two's complement. */
  lemma VectorPrinted()
    ensures Serialize(Derived(Vector, [2, -1, 258], [], [Named(Int)])) ==
            [0x42] + [2, 0, 0, 0] + [255, 255, 255, 255] + [2, 1, 0, 0] + [0x02]
  {
    BytesExample();
    ThreeInts(2, -1, 258);
    var t := Named(Int);
    assert SerializeAll([t]) == Serialize(t) + SerializeAll([t][1..]) && [t][1..] == [];
    assert Array([], 8) == [];
  }

  lemma MagicExample()
    ensures Bytes(MAGIC, 4) == [0x50, 0x54, 0x44, 0x46]
  {
    assert Bytes(0x46, 1) == [0x46] by { assert Bytes(0, 0) == []; }
    assert Bytes(0x4644, 2) == [0x44, 0x46];
    assert Bytes(0x464454, 3) == [0x54, 0x44, 0x46];
  }

  /** A whole message begins with its magic number, of which the least significant byte comes first. */
  lemma MessagePrinted(data: seq<Byte>)
    ensures Deserialize(data) == Ok(Null) <==> [0x50, 0x54, 0x44, 0x46, 0xFF] <= data
    ensures Deserialize(data) == Ok(Named(TwoInt)) <==> [0x50, 0x54, 0x44, 0x46, 0x21] <= data
  {
    MagicExample();
    MessageExact(data, Null);
    MessageExact(data, Named(TwoInt));
    assert Message(Null) == [0x50, 0x54, 0x44, 0x46, 0xFF];
    assert Message(Named(TwoInt)) == [0x50, 0x54, 0x44, 0x46, 0x21];
  }
}
