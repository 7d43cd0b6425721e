/** Printing a datatype into a growing buffer and parsing it back with a cursor that every read advances. */
module DatatypeStreams {
  import opened DatatypeCodec

  class Writer {
    var buffer: seq<Byte>

    constructor ()
      ensures buffer == []
    {
      buffer := [];
    }

    method WriteVal(x: int, width: Width)
      modifies this
      ensures buffer == old(buffer) + Bytes(x, width)
    {
      buffer := buffer + Bytes(x, width);
    }

    method WriteArray(xs: seq<int>, width: Width)
      modifies this
      ensures buffer == old(buffer) + Array(xs, width)
    {
      ghost var start, written := buffer, Array([], width);
      for i := 0 to |xs|
        invariant written == Array(xs[..i], width) && buffer == start + written
      {
        assert xs[..i + 1] == xs[..i] + [xs[i]];
        ArrayMore(xs[..i], xs[i], width);
        ghost var more := Bytes(xs[i], width);
        WriteVal(xs[i], width);
        Joined(start, written, more);
        written := written + more;
      }
      assert xs[..|xs|] == xs;
    }

    method SerializeRecursive(t: Type)
      requires WellFormed(t)
      modifies this
      ensures buffer == old(buffer) + Serialize(t)
      decreases t, 2
    {
      match t
      case Null => buffer := buffer + [NULL_CODE];
      case Named(t) => buffer := buffer + [BuiltinCode(t)];
      case Derived(c, ints, addrs, types) =>
        SerializedParts(t);
        FittingParts(t);
        WrittenParts(t);
        ghost var start := buffer;
        buffer := buffer + [Code(c)];
        SerializeContents(c, ints, addrs);
        SerializeTypes(t, types);
        JoinedParts(start, [Code(c)], Array(ints, 4), Array(addrs, 8), SerializeAll(types));
    }

    /** Which arrays are written depends on the combiner; the others are empty. */
    method SerializeContents(c: Combiner, ints: seq<int>, addrs: seq<int>)
      requires Written(c, ints, addrs)
      modifies this
      ensures buffer == old(buffer) + Array(ints, 4) + Array(addrs, 8)
    {
      ghost var start, a, b := buffer, Array(ints, 4), Array(addrs, 8);
      assert |a| == Size(|ints|, 4) && |b| == Size(|addrs|, 8);
      NoMore(start, a);
      NoMore(start + a, b);
      match c
      case Dup =>
      case Contiguous | Vector | Indexed | IndexedBlock | Subarray | DArray =>
        WriteArray(ints, 4);
      case HVector | HIndexed | HIndexedBlock | Struct =>
        WriteArray(ints, 4);
        WriteArray(addrs, 8);
      case Resized =>
        WriteArray(addrs, 8);
    }

    method SerializeTypes(ghost t: Type, types: seq<Type>)
      requires t.Derived? && types == t.types && AllWellFormed(types)
      modifies this
      ensures buffer == old(buffer) + SerializeAll(types)
      decreases t, 1
    {
      ghost var start, written := buffer, SerializeAll([]);
      for i := 0 to |types|
        invariant written == SerializeAll(types[..i]) && buffer == start + written
      {
        SerializeMore(types[..i], types[i]);
        assert types[..i + 1] == types[..i] + [types[i]];
        assert types[i] == t.types[i];
        ghost var more := Serialize(types[i]);
        SerializeRecursive(types[i]);
        Joined(start, written, more);
        written := written + more;
      }
      assert types[..|types|] == types;
    }
  }

  lemma Joined(a: seq<Byte>, b: seq<Byte>, c: seq<Byte>)
    ensures a + b + c == a + (b + c)
  {
  }

  lemma NoMore(s: seq<Byte>, e: seq<Byte>)
    ensures |e| == 0 ==> s + e == s
  {
  }

  lemma JoinedParts(a: seq<Byte>, b: seq<Byte>, c: seq<Byte>, d: seq<Byte>, e: seq<Byte>)
    ensures a + b + c + d + e == a + (b + c + d + e)
  {
  }

  lemma {:induction false} SerializeMore(ts: seq<Type>, t: Type)
    ensures SerializeAll(ts + [t]) == SerializeAll(ts) + Serialize(t)
  {
    if ts != [] {
      SerializeMore(ts[1..], t);
      var all := ts + [t];
      assert all[0] == ts[0] && all[1..] == ts[1..] + [t];
      Joined(Serialize(ts[0]), SerializeAll(ts[1..]), Serialize(t));
    } else {
      assert SerializeAll([t]) == Serialize(t) + SerializeAll([]);
    }
  }

  /** The contents that a combiner does not write are empty. */
  predicate Written(c: Combiner, ints: seq<int>, addrs: seq<int>) {
    match c
    case Dup => ints == [] && addrs == []
    case Contiguous | Vector | Indexed | IndexedBlock | Subarray | DArray => addrs == []
    case HVector | HIndexed | HIndexedBlock | Struct => true
    case Resized => ints == []
  }

  lemma WrittenParts(t: Type)
    requires t.Derived? && WellFormed(t)
    ensures Written(t.combiner, t.ints, t.addrs)
  {
    FittingParts(t);
    FormIs(t.combiner);
    WrittenShape(t.combiner, FormOf(t.combiner), t.ints, t.addrs, |t.types|);
  }

  lemma WrittenShape(c: Combiner, f: Form, ints: seq<int>, addrs: seq<int>, types: nat)
    requires IsForm(c, f) && f.Valid() && Shaped(f, ints, addrs, types)
    ensures Written(c, ints, addrs)
  {
  }

  /** The table of forms, entry by entry. */
  predicate IsForm(c: Combiner, f: Form) {
    match c
    case Dup => f == Form(0, -1, 0, 0, 0, false, false)
    case Contiguous => f == Form(1, -1, 0, 0, 0, false, false)
    case Vector => f == Form(3, -1, 0, 0, 0, false, false)
    case HVector => f == Form(2, -1, 0, 0, 1, false, false)
    case Indexed => f == Form(1, 0, 2, 0, 0, false, false)
    case HIndexed => f == Form(1, 0, 1, 0, 0, true, false)
    case IndexedBlock => f == Form(2, 0, 1, 0, 0, false, false)
    case HIndexedBlock => f == Form(2, 0, 0, 0, 0, true, false)
    case Struct => f == Form(1, 0, 1, 0, 0, true, true)
    case Subarray => f == Form(1, 0, 3, 1, 0, false, false)
    case DArray => f == Form(3, 2, 4, 1, 0, false, false)
    case Resized => f == Form(0, -1, 0, 0, 2, false, false)
  }

  lemma FormIs(c: Combiner)
    ensures IsForm(c, FormOf(c))
  {
  }

  /** Integers, addresses, and the number of inner types. */
  type Contents = (seq<int>, seq<int>, nat)

  class Reader {
    const data: seq<Byte>
    var ptr: nat

    constructor (data: seq<Byte>, ptr: nat)
      requires ptr <= |data|
      ensures this.data == data && this.ptr == ptr
    {
      this.data, this.ptr := data, ptr;
    }

    method ReadVal(width: Width) returns (r: Result<int>)
      requires ptr <= |data|
      modifies this
      ensures old(ptr) <= ptr <= |data|
      ensures if old(ptr) + width <= |data| then r == Ok(IntAt(data, old(ptr), width)) && ptr == old(ptr) + width
              else r == Error
    {
      if ptr + width > |data| { return Error; }
      var x := IntAt(data, ptr, width);
      ptr := ptr + width;
      r := Ok(x);
    }

    method ReadVector(n: nat, width: Width) returns (r: Result<seq<int>>)
      requires ptr <= |data|
      modifies this
      ensures old(ptr) <= ptr <= |data|
      ensures if old(ptr) + Size(n, width) <= |data|
              then r == Ok(ArrayAt(data, old(ptr), n, width)) && ptr == old(ptr) + Size(n, width)
              else r == Error
    {
      var xs := [];
      for i := 0 to n
        invariant ptr == old(ptr) + Size(i, width) <= |data| && |xs| == i
        invariant forall k :: 0 <= k < i ==> xs[k] == IntAt(data, old(ptr) + Size(k, width), width)
      {
        var x :- ReadVal(width);
        xs := xs + [x];
      }
      assert xs == ArrayAt(data, old(ptr), n, width);
      r := Ok(xs);
    }

    /** These integers have been read since start. */
    ghost predicate Read(start: nat, xs: seq<int>, width: Width)
      reads this
    {
      ptr == start + Size(|xs|, width) <= |data| && xs == ArrayAt(data, start, |xs|, width)
    }

    /** Reads n more; an array cannot have a negative length. */
    method Take(ghost start: nat, had: seq<int>, n: int, width: Width) returns (r: Result<seq<int>>)
      requires Read(start, had, width)
      modifies this
      ensures old(ptr) <= ptr <= |data|
      ensures r.Ok? <==> n >= 0 && start + Size(|had| + n, width) <= |data|
      ensures r.Ok? ==> |r.value| == |had| + n && had <= r.value && Read(start, r.value, width)
    {
      if n < 0 { return Error; }
      var more :- ReadVector(n, width);
      ArraySplit(data, start, |had|, n, width);
      r := Ok(had + more);
    }

    /** Two, three or four arrays of n. */
    method TakeTwo(ghost start: nat, had: seq<int>, n: int) returns (r: Result<seq<int>>)
      requires Read(start, had, 4)
      modifies this
      ensures old(ptr) <= ptr <= |data|
      ensures r.Ok? <==> n >= 0 && start + Size(|had| + n + n, 4) <= |data|
      ensures r.Ok? ==> |r.value| == |had| + n + n && had <= r.value && Read(start, r.value, 4)
    {
      var more :- Take(start, had, n, 4);
      r := Take(start, more, n, 4);
    }

    method TakeThree(ghost start: nat, had: seq<int>, n: int) returns (r: Result<seq<int>>)
      requires Read(start, had, 4)
      modifies this
      ensures old(ptr) <= ptr <= |data|
      ensures r.Ok? <==> n >= 0 && start + Size(|had| + n + n + n, 4) <= |data|
      ensures r.Ok? ==> |r.value| == |had| + n + n + n && had <= r.value && Read(start, r.value, 4)
    {
      var more :- TakeTwo(start, had, n);
      r := Take(start, more, n, 4);
    }

    method TakeFour(ghost start: nat, had: seq<int>, n: int) returns (r: Result<seq<int>>)
      requires Read(start, had, 4)
      modifies this
      ensures old(ptr) <= ptr <= |data|
      ensures r.Ok? <==> n >= 0 && start + Size(|had| + n + n + n + n, 4) <= |data|
      ensures r.Ok? ==> |r.value| == |had| + n + n + n + n && had <= r.value && Read(start, r.value, 4)
    {
      var more :- TakeTwo(start, had, n);
      r := TakeTwo(start, more, n);
    }

    // What each combiner reads before its inner types: integers, addresses, and how many inner types follow.

    method ReadContiguous() returns (r: Result<Contents>)
      requires ptr <= |data|
      modifies this
      ensures old(ptr) <= ptr <= |data| && Gave(data, old(ptr), Form(1, -1, 0, 0, 0, false, false), r, ptr)
    {
      ghost var start := ptr;
      var ints :- Take(start, [], 1, 4);
      r := Ok((ints, [], 1));
    }

    method ReadVectorType() returns (r: Result<Contents>)
      requires ptr <= |data|
      modifies this
      ensures old(ptr) <= ptr <= |data| && Gave(data, old(ptr), Form(3, -1, 0, 0, 0, false, false), r, ptr)
    {
      ghost var start := ptr;
      var ints :- Take(start, [], 1, 4);
      ints :- Take(start, ints, 1, 4);
      ints :- Take(start, ints, 1, 4);
      r := Ok((ints, [], 1));
    }

    method ReadHVector() returns (r: Result<Contents>)
      requires ptr <= |data|
      modifies this
      ensures old(ptr) <= ptr <= |data| && Gave(data, old(ptr), Form(2, -1, 0, 0, 1, false, false), r, ptr)
    {
      ghost var start := ptr;
      var ints :- Take(start, [], 1, 4);
      ints :- Take(start, ints, 1, 4);
      var addrs :- Take(ptr, [], 1, 8);
      r := Ok((ints, addrs, 1));
    }

    method ReadIndexed() returns (r: Result<Contents>)
      requires ptr <= |data|
      modifies this
      ensures old(ptr) <= ptr <= |data| && Gave(data, old(ptr), Form(1, 0, 2, 0, 0, false, false), r, ptr)
    {
      ghost var start := ptr;
      var ints :- Take(start, [], 1, 4);
      var count := ints[0];
      ints :- Take(start, ints, count, 4);
      ints :- Take(start, ints, count, 4);
      r := Ok((ints, [], 1));
    }

    method ReadHIndexed() returns (r: Result<Contents>)
      requires ptr <= |data|
      modifies this
      ensures old(ptr) <= ptr <= |data| && Gave(data, old(ptr), Form(1, 0, 1, 0, 0, true, false), r, ptr)
    {
      ghost var start := ptr;
      var ints :- Take(start, [], 1, 4);
      var count := ints[0];
      ints :- Take(start, ints, count, 4);
      var addrs :- Take(ptr, [], count, 8);
      r := Ok((ints, addrs, 1));
    }

    method ReadIndexedBlock() returns (r: Result<Contents>)
      requires ptr <= |data|
      modifies this
      ensures old(ptr) <= ptr <= |data| && Gave(data, old(ptr), Form(2, 0, 1, 0, 0, false, false), r, ptr)
    {
      ghost var start := ptr;
      var ints :- Take(start, [], 1, 4);
      ints :- Take(start, ints, 1, 4);
      var count := ints[0];
      ints :- Take(start, ints, count, 4);
      r := Ok((ints, [], 1));
    }

    method ReadHIndexedBlock() returns (r: Result<Contents>)
      requires ptr <= |data|
      modifies this
      ensures old(ptr) <= ptr <= |data| && Gave(data, old(ptr), Form(2, 0, 0, 0, 0, true, false), r, ptr)
    {
      ghost var start := ptr;
      var ints :- Take(start, [], 1, 4);
      ints :- Take(start, ints, 1, 4);
      var count := ints[0];
      var addrs :- Take(ptr, [], count, 8);
      r := Ok((ints, addrs, 1));
    }

    method ReadStruct() returns (r: Result<Contents>)
      requires ptr <= |data|
      modifies this
      ensures old(ptr) <= ptr <= |data| && Gave(data, old(ptr), Form(1, 0, 1, 0, 0, true, true), r, ptr)
    {
      ghost var start := ptr;
      var ints :- Take(start, [], 1, 4);
      var count := ints[0];
      ints :- Take(start, ints, count, 4);
      var addrs :- Take(ptr, [], count, 8);
      r := Ok((ints, addrs, count));
    }

    /** Sizes, subsizes and starts, and then the order. */
    method ReadSubarray() returns (r: Result<Contents>)
      requires ptr <= |data|
      modifies this
      ensures old(ptr) <= ptr <= |data| && Gave(data, old(ptr), Form(1, 0, 3, 1, 0, false, false), r, ptr)
    {
      ghost var start := ptr;
      var ints :- Take(start, [], 1, 4);
      var dims := ints[0];
      ints :- TakeThree(start, ints, dims);
      ints :- Take(start, ints, 1, 4);
      r := Ok((ints, [], 1));
    }

    /** Size, rank and dimensions; sizes, distributions, their arguments and the process grid; and then the order. */
    method ReadDArray() returns (r: Result<Contents>)
      requires ptr <= |data|
      modifies this
      ensures old(ptr) <= ptr <= |data| && Gave(data, old(ptr), Form(3, 2, 4, 1, 0, false, false), r, ptr)
    {
      ghost var start := ptr;
      var ints :- Take(start, [], 1, 4);
      ints :- Take(start, ints, 1, 4);
      ints :- Take(start, ints, 1, 4);
      var dims := ints[2];
      ints :- TakeFour(start, ints, dims);
      ints :- Take(start, ints, 1, 4);
      r := Ok((ints, [], 1));
    }

    method ReadResized() returns (r: Result<Contents>)
      requires ptr <= |data|
      modifies this
      ensures old(ptr) <= ptr <= |data| && Gave(data, old(ptr), Form(0, -1, 0, 0, 2, false, false), r, ptr)
    {
      ghost var start := ptr;
      var addrs :- Take(start, [], 1, 8);
      addrs :- Take(start, addrs, 1, 8);
      r := Ok(([], addrs, 1));
    }

    method ReadContents(c: Combiner, ghost f: Form) returns (r: Result<Contents>)
      requires ptr <= |data| && IsForm(c, f) && f.Valid()
      modifies this
      ensures old(ptr) <= ptr <= |data| && Gave(data, old(ptr), f, r, ptr)
    {
      match c
      case Dup => r := Ok(([], [], 1));
      case Contiguous => r := ReadContiguous();
      case Vector => r := ReadVectorType();
      case HVector => r := ReadHVector();
      case Indexed => r := ReadIndexed();
      case HIndexed => r := ReadHIndexed();
      case IndexedBlock => r := ReadIndexedBlock();
      case HIndexedBlock => r := ReadHIndexedBlock();
      case Struct => r := ReadStruct();
      case Subarray => r := ReadSubarray();
      case DArray => r := ReadDArray();
      case Resized => r := ReadResized();
    }

    method DeserializeRecursive() returns (r: Result<Type>)
      requires ptr <= |data|
      modifies this
      ensures ptr <= |data|
      ensures match Parse(data, old(ptr))
        case Ok((t, end)) => r == Ok(t) && ptr == end
        case Error => r == Error
      decreases |data| - ptr, 0
    {
      if ptr >= |data| { return Error; }
      var b := data[ptr];
      ptr := ptr + 1;
      if b == NULL_CODE { return Ok(Null); }
      if b < FIRST_DERIVED {
        return match BuiltinOf(b) case Ok(t) => Ok(Named(t)) case Error => Error;
      }
      if b > LAST_DERIVED { return Error; }
      r := DeserializeDerived(CombinerOf(b));
    }

    method DeserializeDerived(c: Combiner) returns (r: Result<Type>)
      requires ptr <= |data|
      modifies this
      ensures ptr <= |data|
      ensures match ParseDerived(data, old(ptr), c)
        case Ok((t, end)) => r == Ok(t) && ptr == end
        case Error => r == Error
      decreases |data| - ptr, 3
    {
      ghost var start := ptr;
      var contents, f := ReadForm(c);
      var parts :- DeserializeRest(start, f, contents);
      r := Ok(Derived(c, parts.0, parts.1, parts.2));
    }

    method ReadForm(c: Combiner) returns (r: Result<Contents>, ghost f: Form)
      requires ptr <= |data|
      modifies this
      ensures old(ptr) <= ptr <= |data| && f == FormOf(c) && Gave(data, old(ptr), f, r, ptr)
    {
      f := FormOf(c);
      FormIs(c);
      r := ReadContents(c, f);
    }

    method DeserializeRest(ghost start: nat, ghost f: Form, contents: Result<Contents>)
      returns (r: Result<(seq<int>, seq<int>, seq<Type>)>)
      requires start <= ptr <= |data| && f.Valid() && Gave(data, start, f, contents, ptr)
      modifies this
      ensures ptr <= |data|
      ensures match ParseForm(data, start, f)
        case Ok((ints, addrs, types, end)) => r == Ok((ints, addrs, types)) && ptr == end
        case Error => r == Error
      decreases |data| - ptr, 2
    {
      if contents.Error? {
        ShortForm(data, start, f);
        return Error;
      }
      GaveForm(data, start, f, contents.value, ptr);
      var types :- DeserializeTypes(contents.value.2);
      r := Ok((contents.value.0, contents.value.1, types));
    }

    method DeserializeTypes(n: nat) returns (r: Result<seq<Type>>)
      requires ptr <= |data|
      modifies this
      ensures ptr <= |data|
      ensures match ParseAll(data, old(ptr), n)
        case Ok((ts, end)) => r == Ok(ts) && ptr == end
        case Error => r == Error
      decreases |data| - ptr, 1, n
    {
      if n == 0 { return Ok([]); }
      var t :- DeserializeRecursive();
      var rest :- DeserializeTypes(n - 1);
      r := Ok([t] + rest);
    }
  }

  /** The contents that a form gives, or an error when bytes are missing or an array would have a negative length. */
  ghost predicate Gave(data: seq<Byte>, pos: nat, f: Form, r: Result<Contents>, end: nat)
    requires f.Valid()
  {
    match r
    case Ok((ints, addrs, types)) =>
      && |ints| >= f.head && CountOf(f, ints) >= 0
      && |ints| == f.head + MoreInts(f, CountOf(f, ints))
      && |addrs| == Addrs(f, CountOf(f, ints)) && types == Types(f, CountOf(f, ints))
      && pos + 4 * |ints| + 8 * |addrs| == end <= |data|
      && ints == ArrayAt(data, pos, |ints|, 4) && addrs == ArrayAt(data, pos + 4 * |ints|, |addrs|, 8)
    case Error => Short(data, pos, f)
  }

  ghost predicate Short(data: seq<Byte>, pos: nat, f: Form)
    requires f.Valid()
  {
    pos + 4 * f.head > |data| ||
    var n := CountOf(f, ArrayAt(data, pos, f.head, 4));
    n < 0 || pos + 4 * (f.head + MoreInts(f, n)) + 8 * Addrs(f, n) > |data|
  }

  lemma GaveForm(data: seq<Byte>, pos: nat, f: Form, c: Contents, end: nat)
    requires pos <= |data| && f.Valid() && Gave(data, pos, f, Ok(c), end)
    ensures end <= |data|
    ensures ParseForm(data, pos, f) == match ParseAll(data, end, c.2)
      case Error => Error
      case Ok((types, e)) => Ok((c.0, c.1, types, e))
  {
    ArraySplit(data, pos, f.head, |c.0| - f.head, 4);
    assert CountOf(f, c.0) == CountOf(f, ArrayAt(data, pos, f.head, 4));
  }

  lemma ShortForm(data: seq<Byte>, pos: nat, f: Form)
    requires pos <= |data| && f.Valid() && Short(data, pos, f)
    ensures ParseForm(data, pos, f).Error?
  {
  }
}
