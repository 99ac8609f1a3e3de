/**
 * The part of Python's struct module the reference client uses: big-endian
 * formats ('>') made of B, I, Q and '<n>s' fields, packed with struct.pack
 * and read back with struct.unpack_from, and the exceptions the reference
 * client raises.
 */
module PyStruct {
  import opened Wrappers
  import opened Bytes

  /** The exceptions raised by the reference client. */
  datatype PyError =
    | StructError        // struct.error: value out of range, wrong type, short buffer
    | HeaderMismatch     // "Mismatch in header checksums"
    | RecordMismatch     // "Mismatch in record checksums"
    | AssertionFailed    // a failed assert statement
    | TooMuchData        // KivalooTooMuchData
    | InvalidBlocksize   // "wire append: Invalid blocksize"
    | ZeroDivision       // ZeroDivisionError

  /** One field of a big-endian format: B, I, Q, or '<n>s'. */
  datatype Field = U8 | U32 | U64 | Str(n: nat)

  /** A Python value handed to or returned by struct: an int or a bytes object. */
  datatype Value = Int(i: int) | Bytes(b: seq<byte>)

  function FieldSize(f: Field): (r: nat)
  {
    match f
    case U8 => 1
    case U32 => 4
    case U64 => 8
    case Str(n) => n
  }

  /** struct.calcsize: standard sizes, no padding under '>'. */
  function FmtSize(fmt: seq<Field>): nat
  {
    if fmt == [] then 0 else FieldSize(fmt[0]) + FmtSize(fmt[1..])
  }

  /** A bytes object packed into '<n>s': truncated, or padded with zero bytes. */
  function FitTo(b: seq<byte>, n: nat): (r: seq<byte>)
    ensures |r| == n
    ensures |b| >= n ==> r == b[..n]
    ensures |b| < n ==> r[..|b|] == b && forall i :: |b| <= i < n ==> r[i] == 0
  {
    if |b| >= n then b[..n] else b + seq(n - |b|, _ => 0)
  }

  /** struct.pack of one field. */
  function PackField(f: Field, v: Value): Result<seq<byte>, PyError>
  {
    match (f, v)
    case (U8, Int(i)) => if 0 <= i < 256 then Ok([i]) else Err(StructError)
    case (U32, Int(i)) => if 0 <= i <= UINT32_MAX then Ok(Be32(i)) else Err(StructError)
    case (U64, Int(i)) => if 0 <= i <= UINT64_MAX then Ok(Be64(i)) else Err(StructError)
    case (Str(n), Bytes(b)) => Ok(FitTo(b, n))
    case _ => Err(StructError)
  }

  /** struct.pack(fmt, *vs): an error for a wrong count, type or range. */
  function Pack(fmt: seq<Field>, vs: seq<Value>): Result<seq<byte>, PyError>
  {
    if |fmt| != |vs| then Err(StructError)
    else if fmt == [] then Ok([])
    else
      var head :- PackField(fmt[0], vs[0]);
      var tail :- Pack(fmt[1..], vs[1..]);
      Ok(head + tail)
  }

  /** struct.unpack_from of one field at off, which must fit in data. */
  function UnpackField(f: Field, data: seq<byte>, off: nat): (r: Value)
    requires off + FieldSize(f) <= |data|
  {
    match f
    case U8 => Int(data[off])
    case U32 => Int(Be32Dec(data[off..off + 4]))
    case U64 => Int(Be64Dec(data[off..off + 8]))
    case Str(n) => Bytes(data[off..off + n])
  }

  /** struct.unpack_from(fmt, data, offset=off): None where struct.error is raised. */
  function Unpack(fmt: seq<Field>, data: seq<byte>, off: nat): Option<seq<Value>>
  {
    if off + FmtSize(fmt) > |data| then None
    else if fmt == [] then Some([])
    else
      var tail := Unpack(fmt[1..], data, off + FieldSize(fmt[0]));
      if tail.None? then None else Some([UnpackField(fmt[0], data, off)] + tail.value)
  }

  /** A value that unpacks back from its field: an int in range, or bytes of exactly the width. */
  predicate FieldConforms(f: Field, v: Value)
  {
    match f
    case U8 => v.Int? && 0 <= v.i < 256
    case U32 => v.Int? && 0 <= v.i <= UINT32_MAX
    case U64 => v.Int? && 0 <= v.i <= UINT64_MAX
    case Str(n) => v.Bytes? && |v.b| == n
  }

  /** The values a format unpacks to, and that it packs without loss. */
  predicate Conforms(fmt: seq<Field>, vs: seq<Value>)
  {
    |fmt| == |vs| && (fmt == [] || (FieldConforms(fmt[0], vs[0]) && Conforms(fmt[1..], vs[1..])))
  }

  /** A successful pack is calcsize(fmt) bytes long. */
  lemma {:induction false} PackSize(fmt: seq<Field>, vs: seq<Value>)
    requires Pack(fmt, vs).Ok?
    ensures |Pack(fmt, vs).value| == FmtSize(fmt)
  {
    if fmt != [] {
      PackSize(fmt[1..], vs[1..]);
    }
  }

  /** unpack_from succeeds exactly when calcsize(fmt) bytes remain after off. */
  lemma {:induction false} UnpackDefined(fmt: seq<Field>, data: seq<byte>, off: nat)
    ensures Unpack(fmt, data, off).Some? <==> off + FmtSize(fmt) <= |data|
    ensures Unpack(fmt, data, off).Some? ==> |Unpack(fmt, data, off).value| == |fmt|
  {
    if fmt != [] && off + FmtSize(fmt) <= |data| {
      UnpackDefined(fmt[1..], data, off + FieldSize(fmt[0]));
    }
  }

  lemma PackFieldUnpack(f: Field, v: Value, pre: seq<byte>, rest: seq<byte>)
    requires FieldConforms(f, v)
    ensures PackField(f, v).Ok?
    ensures |PackField(f, v).value| == FieldSize(f)
    ensures UnpackField(f, pre + PackField(f, v).value + rest, |pre|) == v
  {
    var e := PackField(f, v).value;
    var d := pre + e + rest;
    assert d[|pre|..|pre| + |e|] == e;
    match f
    case U8 =>
    case U32 => assert Be32Dec(Be32(v.i)) == v.i;
    case U64 => assert Be64Dec(Be64(v.i)) == v.i;
    case Str(n) =>
  }

  /** Unpacking what was packed, wherever it sits in a buffer, gives back the values. */
  lemma {:induction false} UnpackPack(fmt: seq<Field>, vs: seq<Value>, pre: seq<byte>, rest: seq<byte>)
    requires Conforms(fmt, vs)
    ensures Pack(fmt, vs).Ok?
    ensures Unpack(fmt, pre + Pack(fmt, vs).value + rest, |pre|) == Some(vs)
  {
    if fmt != [] {
      var e := PackField(fmt[0], vs[0]).value;
      UnpackPack(fmt[1..], vs[1..], pre + e, rest);
      var t := Pack(fmt[1..], vs[1..]).value;
      PackFieldUnpack(fmt[0], vs[0], pre, t + rest);
      var d := pre + e + t + rest;
      assert Pack(fmt, vs) == Ok(e + t) by {
        PackCons(fmt, vs);
      }
      assert pre + Pack(fmt, vs).value + rest == d && pre + e + (t + rest) == d by {
        AssocBytes(pre, e, t, rest);
      }
      assert UnpackField(fmt[0], d, |pre|) == vs[0];
      var off := |pre| + FieldSize(fmt[0]);
      assert off == |pre + e| && off <= |d|;
      assert Unpack(fmt[1..], d, off) == Some(vs[1..]);
      UnpackCons(fmt, d, |pre|, vs[1..]);
      assert vs == [vs[0]] + vs[1..];
    }
  }

  lemma PackCons(fmt: seq<Field>, vs: seq<Value>)
    requires fmt != [] && |fmt| == |vs| && PackField(fmt[0], vs[0]).Ok? && Pack(fmt[1..], vs[1..]).Ok?
    ensures Pack(fmt, vs) == Ok(PackField(fmt[0], vs[0]).value + Pack(fmt[1..], vs[1..]).value)
  {
  }

  lemma AssocBytes(a: seq<byte>, b: seq<byte>, c: seq<byte>, d: seq<byte>)
    ensures a + b + c + d == a + (b + c) + d == a + b + (c + d)
  {
  }

  lemma UnpackCons(fmt: seq<Field>, d: seq<byte>, off: nat, tl: seq<Value>)
    requires fmt != [] && off + FieldSize(fmt[0]) <= |d|
    requires Unpack(fmt[1..], d, off + FieldSize(fmt[0])) == Some(tl)
    ensures Unpack(fmt, d, off) == Some([UnpackField(fmt[0], d, off)] + tl)
  {
    UnpackDefined(fmt[1..], d, off + FieldSize(fmt[0]));
  }

  /** The only exception struct.pack raises is struct.error. */
  lemma {:induction false} PackError(fmt: seq<Field>, vs: seq<Value>)
    ensures Pack(fmt, vs).Err? ==> Pack(fmt, vs).error == StructError
  {
    if |fmt| == |vs| && fmt != [] && PackField(fmt[0], vs[0]).Ok? {
      PackError(fmt[1..], vs[1..]);
    }
  }

  /** Packing a format with a first field: that field, then the rest. */
  lemma PackFirst(f: Field, fs: seq<Field>, v: Value, vs: seq<Value>)
    requires |fs| == |vs| && PackField(f, v).Ok? && Pack(fs, vs).Ok?
    ensures Pack([f] + fs, [v] + vs) == Ok(PackField(f, v).value + Pack(fs, vs).value)
  {
    assert ([f] + fs)[1..] == fs && ([v] + vs)[1..] == vs;
  }

  /** Packing a format whose first field packs to a and whose remaining fields pack to b. */
  lemma PackAt(fmt: seq<Field>, vs: seq<Value>, a: seq<byte>, b: seq<byte>)
    requires fmt != [] && |fmt| == |vs|
    requires PackField(fmt[0], vs[0]) == Ok(a) && Pack(fmt[1..], vs[1..]) == Ok(b)
    ensures Pack(fmt, vs) == Ok(a + b)
  {
  }

  /** Packing a one-field format. */
  lemma PackOne(f: Field, v: Value)
    requires PackField(f, v).Ok?
    ensures Pack([f], [v]) == PackField(f, v)
  {
    PackFirst(f, [], v, []);
    assert [f] + [] == [f] && [v] + [] == [v];
    assert PackField(f, v).value + [] == PackField(f, v).value;
  }

  /** Unpacking a one-field format. */
  lemma UnpackOne(f: Field, data: seq<byte>, off: nat)
    requires off + FieldSize(f) <= |data|
    ensures Unpack([f], data, off) == Some([UnpackField(f, data, off)])
  {
    assert [f][1..] == [];
    assert FmtSize([f]) == FieldSize(f);
    assert Unpack([], data, off + FieldSize(f)) == Some([]);
    var x := UnpackField(f, data, off);
    assert [x] + [] == [x];
  }

  /** Unpacking a format with a first field: that field, then the rest after it. */
  lemma UnpackFirst(f: Field, fs: seq<Field>, data: seq<byte>, off: nat)
    requires off + FieldSize(f) + FmtSize(fs) <= |data| && Unpack(fs, data, off + FieldSize(f)).Some?
    ensures Unpack([f] + fs, data, off) == Some([UnpackField(f, data, off)] + Unpack(fs, data, off + FieldSize(f)).value)
  {
    assert ([f] + fs)[1..] == fs;
  }

  /** Unpacking a two-field format into values already known field by field. */
  lemma UnpackTwo(f: Field, g: Field, data: seq<byte>, off: nat, off2: nat, x: Value, y: Value)
    requires off2 == off + FieldSize(f) && off2 + FieldSize(g) <= |data|
    requires UnpackField(f, data, off) == x && UnpackField(g, data, off2) == y
    ensures Unpack([f, g], data, off) == Some([x, y])
  {
    UnpackOne(g, data, off + FieldSize(f));
    assert FmtSize([g]) == FieldSize(g);
    UnpackFirst(f, [g], data, off);
    assert [f] + [g] == [f, g];
    assert [x] + [y] == [x, y];
  }

  /** Unpacking a three-field format into values already known field by field. */
  lemma UnpackThree(f: Field, g: Field, h: Field, data: seq<byte>, off: nat, off2: nat, off3: nat, x: Value, y: Value, z: Value)
    requires off2 == off + FieldSize(f) && off3 == off2 + FieldSize(g) && off3 + FieldSize(h) <= |data|
    requires UnpackField(f, data, off) == x && UnpackField(g, data, off2) == y && UnpackField(h, data, off3) == z
    ensures Unpack([f, g, h], data, off) == Some([x, y, z])
  {
    UnpackTwo(g, h, data, off2, off3, y, z);
    assert FmtSize([g, h]) == FieldSize(g) + FieldSize(h) by {
      assert [g, h][1..] == [h];
      assert FmtSize([h]) == FieldSize(h);
    }
    UnpackFirst(f, [g, h], data, off);
    assert [f] + [g, h] == [f, g, h];
    assert [x] + [y, z] == [x, y, z];
  }

  /** Packing fails exactly on a wrong count, a wrong type or an out-of-range int. */
  lemma {:induction false} PackDefined(fmt: seq<Field>, vs: seq<Value>)
    ensures Pack(fmt, vs).Ok? <==> |fmt| == |vs| && forall i :: 0 <= i < |fmt| ==> PackField(fmt[i], vs[i]).Ok?
  {
    if |fmt| == |vs| && fmt != [] {
      PackDefined(fmt[1..], vs[1..]);
      assert forall i :: 1 <= i < |fmt| ==> fmt[1..][i - 1] == fmt[i] && vs[1..][i - 1] == vs[i];
    }
  }
}
