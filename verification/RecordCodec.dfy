/** Records as bytes: packing the columns one after the other, and reading them back at a column offset. */
module RecordCodec {
  import opened Bytes
  import opened LittleEndian
  import opened Wrappers

  datatype ColumnType = Int32Type | UInt64Type | FloatType | StringType | BoolType

  // A float is its four bytes.
  datatype ColumnValue = Int32(i: int) | UInt64(u: nat) | Float(f: seq<byte>) | Str(s: seq<byte>) | Bool(b: bool)

  const I32_LIMIT: int := 0x8000_0000

  predicate HasType(v: ColumnValue, t: ColumnType)
  {
    match t
    case Int32Type => v.Int32? && -I32_LIMIT <= v.i < I32_LIMIT
    case UInt64Type => v.UInt64? && v.u < U64_LIMIT
    case FloatType => v.Float? && |v.f| == 4
    case StringType => v.Str? && |v.s| < U64_LIMIT
    case BoolType => v.Bool?
  }

  // The values fit columns start.. of the schema.
  predicate WellTyped(vs: seq<ColumnValue>, types: seq<ColumnType>, start: nat)
  {
    start + |vs| <= |types| && forall k :: 0 <= k < |vs| ==> HasType(vs[k], types[start + k])
  }

  // ---- packing ----

  function Pack(v: ColumnValue): seq<byte>
  {
    match v
    case Int32(i) => Encode(i % U32_LIMIT, 4)
    case UInt64(u) => Encode(u, 8)
    case Float(f) => f
    case Str(s) => Encode(|s|, 8) + s
    case Bool(b) => [if b then 1 else 0]
  }

  // The bytes, one by one: numbers with the lowest byte first, a negative one as its two's complement, true as 1.
  lemma PackBytes(v: ColumnValue, t: ColumnType)
    requires HasType(v, t)
    ensures t.Int32Type? ==>
              |Pack(v)| == 4 && v.i == Number(Pack(v)) - if Pack(v)[3] >= 128 then 0x1_0000_0000 else 0
    ensures t.UInt64Type? ==> |Pack(v)| == 8 && v.u == Number(Pack(v)[..4]) + 0x1_0000_0000 * Number(Pack(v)[4..])
    ensures t.FloatType? ==> Pack(v) == v.f
    ensures t.StringType? ==>
              && |Pack(v)| == 8 + |v.s| && Pack(v)[8..] == v.s
              && |v.s| == Number(Pack(v)[..4]) + 0x1_0000_0000 * Number(Pack(v)[4..8])
    ensures t.BoolType? ==> Pack(v) == [if v.b then 1 else 0]
  {
    Limits();
    hide Encode;
    match t
    case Int32Type =>
      ValueOfEncode(v.i % U32_LIMIT, 4);
      ValueDigits(Encode(v.i % U32_LIMIT, 4));
    case UInt64Type => EncodeBytes(v.u);
    case StringType =>
      EncodeBytes(|v.s|);
      assert Pack(v)[4..8] == Encode(|v.s|, 8)[4..];
      assert Pack(v)[..4] == Encode(|v.s|, 8)[..4];
    case _ =>
  }

  function PackAll(vs: seq<ColumnValue>): seq<byte>
  {
    if vs == [] then [] else PackAll(vs[..|vs| - 1]) + Pack(vs[|vs| - 1])
  }

  // Column after column.
  lemma {:induction false} PackAllJoin(a: seq<ColumnValue>, b: seq<ColumnValue>)
    ensures PackAll(a + b) == PackAll(a) + PackAll(b)
    ensures |a| == 1 ==> PackAll(a) == Pack(a[0])
    decreases |b|
  {
    hide Pack;
    if b == [] {
      assert a + b == a;
    } else {
      assert (a + b)[..|a + b| - 1] == a + b[..|b| - 1];
      PackAllJoin(a, b[..|b| - 1]);
    }
  }

  // calculate_column_size: from the type alone, but for strings.
  function ColumnSize(v: ColumnValue, t: ColumnType): nat
    requires HasType(v, t)
  {
    match t
    case Int32Type => 4
    case UInt64Type => 8
    case FloatType => 4
    case StringType => 8 + |v.s|
    case BoolType => 1
  }

  lemma PackSize(v: ColumnValue, t: ColumnType)
    requires HasType(v, t)
    ensures |Pack(v)| == ColumnSize(v, t)
  {
  }

  function RecordSize(vs: seq<ColumnValue>, types: seq<ColumnType>, start: nat): nat
    requires WellTyped(vs, types, start)
  {
    if vs == [] then 0
    else RecordSize(vs[..|vs| - 1], types, start) + ColumnSize(vs[|vs| - 1], types[start + |vs| - 1])
  }

  // The size computed before packing is the size packed.
  lemma {:induction false} PackAllSize(vs: seq<ColumnValue>, types: seq<ColumnType>, start: nat)
    requires WellTyped(vs, types, start)
    ensures |PackAll(vs)| == RecordSize(vs, types, start)
  {
    hide HasType, Pack, ColumnSize;
    if vs != [] {
      PackAllSize(vs[..|vs| - 1], types, start);
      PackSize(vs[|vs| - 1], types[start + |vs| - 1]);
    }
  }

  // ---- reading ----

  datatype ErrorCode = IncorrectItemSize | InvalidData

  // Beyond: the reader asks for bytes behind the item that are not part of the memory given.
  datatype Status = Fine | Failed(error: ErrorCode) | Beyond

  datatype ColumnReading = Got(value: ColumnValue, offset: nat) | Not(status: Status)

  // item.size - item_offset, in size_t.
  function Left(size: nat, offset: nat): nat
  {
    (size - offset) % U64_LIMIT
  }

  function Peek(mem: seq<byte>, p: nat, n: nat): (b: Option<seq<byte>>)
    ensures b.Some? ==> |b.value| == n
  {
    if p + n <= |mem| then Some(mem[p..p + n]) else None
  }

  function SignedValue(b: seq<byte>): int
  {
    if Value(b) < I32_LIMIT then Value(b) else Value(b) - U32_LIMIT
  }

  function FixedSize(t: ColumnType): nat
  {
    match t
    case Int32Type => 4
    case UInt64Type => 8
    case FloatType => 4
    case StringType => 8
    case BoolType => 1
  }

  function ReadFixed(b: seq<byte>, t: ColumnType, offset: nat): ColumnReading
    requires |b| == FixedSize(t) && !t.StringType?
  {
    match t
    case Int32Type => Got(Int32(SignedValue(b)), offset + 4)
    case UInt64Type => Got(UInt64(Value(b)), offset + 8)
    case FloatType => Got(Float(b), offset + 4)
    case BoolType => if b[0] > 1 then Not(Failed(InvalidData)) else Got(Bool(b[0] == 1), offset + 1)
  }

  // deserialize_column: mem starts at the item, whose size is `size`. A string is accepted when its
  // length is at most what is left of the item, the length field itself not deducted.
  function ReadColumn(mem: seq<byte>, size: nat, offset: nat, t: ColumnType): ColumnReading
  {
    if t.StringType? then
      match Peek(mem, offset, 8)
      case None => Not(Beyond)
      case Some(b) =>
        if Value(b) > Left(size, offset) then Not(Failed(InvalidData))
        else
          match Peek(mem, offset + 8, Value(b))
          case None => Not(Beyond)
          case Some(s) => Got(Str(s), offset + 8 + Value(b))
    else if Left(size, offset) < FixedSize(t) then Not(Failed(IncorrectItemSize))
    else
      match Peek(mem, offset, FixedSize(t))
      case None => Not(Beyond)
      case Some(b) => ReadFixed(b, t, offset)
  }

  datatype Reading = Reading(status: Status, offset: nat, target: seq<ColumnValue>)

  // record_deserialize over columns start..end of the target.
  function ReadColumns(mem: seq<byte>, size: nat, types: seq<ColumnType>, start: nat, end: nat,
                       target: seq<ColumnValue>): (r: Reading)
    requires start <= end <= |types| == |target|
    ensures |r.target| == |target|
    ensures forall k :: 0 <= k < start || end <= k < |target| ==> r.target[k] == target[k]
    decreases end
  {
    if start == end then Reading(Fine, 0, target)
    else
      var r := ReadColumns(mem, size, types, start, end - 1, target);
      if r.status != Fine then r
      else
        match ReadColumn(mem, size, r.offset, types[end - 1])
        case Not(status) => Reading(status, r.offset, r.target)
        case Got(v, offset) => Reading(Fine, offset, r.target[end - 1 := v])
  }

  // One column more.
  lemma ReadNext(mem: seq<byte>, size: nat, types: seq<ColumnType>, start: nat, k: nat, target: seq<ColumnValue>)
    requires start <= k < |types| == |target|
    ensures var q, r := ReadColumns(mem, size, types, start, k, target),
            ReadColumns(mem, size, types, start, k + 1, target);
            var v := ReadColumn(mem, size, q.offset, types[k]);
            && (q.status == Fine && v.Got? ==> r == Reading(Fine, v.offset, q.target[k := v.value]))
            && (q.status == Fine && v.Not? ==> r == Reading(v.status, q.offset, q.target))
            && (q.status != Fine ==> r == q)
  {
    hide ReadColumn;
  }

  lemma ErrorIsNotFine(mem: seq<byte>, size: nat, offset: nat, t: ColumnType)
    ensures ReadColumn(mem, size, offset, t) != Not(Fine)
  {
  }

  // ---- one column there and back ----

  lemma PeekPrefix(mem: seq<byte>, before: seq<byte>, b: seq<byte>)
    requires before + b <= mem
    ensures Peek(mem, |before|, |b|) == Some(b)
  {
    assert mem[|before|..|before| + |b|] == (before + b)[|before|..];
  }

  lemma SignedRoundTrip(i: int)
    requires -I32_LIMIT <= i < I32_LIMIT
    ensures SignedValue(Encode(i % U32_LIMIT, 4)) == i
  {
    Limits();
    ValueOfEncode(i % U32_LIMIT, 4);
  }

  lemma PackedFixed(v: ColumnValue, t: ColumnType, offset: nat)
    requires HasType(v, t) && !t.StringType?
    ensures |Pack(v)| == FixedSize(t) && ReadFixed(Pack(v), t, offset) == Got(v, offset + |Pack(v)|)
  {
    Limits();
    match t
    case Int32Type => SignedRoundTrip(v.i);
    case UInt64Type => ValueOfEncode(v.u, 8);
    case FloatType =>
    case BoolType =>
  }

  lemma ColumnRoundTrip(mem: seq<byte>, size: nat, before: seq<byte>, v: ColumnValue, t: ColumnType)
    requires HasType(v, t) && before + Pack(v) <= mem && |before| + |Pack(v)| <= size < U64_LIMIT
    ensures ReadColumn(mem, size, |before|, t) == Got(v, |before| + |Pack(v)|)
  {
    hide Encode, ReadFixed;
    if t.StringType? {
      Limits();
      var n := Encode(|v.s|, 8);
      ValueOfEncode(|v.s|, 8);
      assert before + Pack(v) == before + n + v.s;
      PeekPrefix(mem, before, n);
      PeekPrefix(mem, before + n, v.s);
    } else {
      PackedFixed(v, t, |before|);
      hide Pack;
      PeekPrefix(mem, before, Pack(v));
    }
  }

  // What was read packs to the bytes it was read from.
  lemma ColumnReadPacks(mem: seq<byte>, size: nat, offset: nat, t: ColumnType)
    requires ReadColumn(mem, size, offset, t).Got?
    ensures var r := ReadColumn(mem, size, offset, t);
            HasType(r.value, t) && offset <= r.offset <= |mem| && Pack(r.value) == mem[offset..r.offset]
  {
    var r := ReadColumn(mem, size, offset, t);
    Limits();
    if t.StringType? {
      StringReadPacks(mem, size, offset, t);
    } else {
      FixedReadPacks(mem[offset..offset + FixedSize(t)], t, offset);
      hide Pack, HasType, ReadFixed;
    }
  }

  lemma StringReadPacks(mem: seq<byte>, size: nat, offset: nat, t: ColumnType)
    requires t.StringType? && ReadColumn(mem, size, offset, t).Got?
    ensures var r := ReadColumn(mem, size, offset, t);
            HasType(r.value, t) && offset <= r.offset <= |mem| && Pack(r.value) == mem[offset..r.offset]
  {
    var r, b := ReadColumn(mem, size, offset, t), mem[offset..offset + 8];
    hide Encode;
    ValueBound(b);
    EncodeOfValue(b);
    assert mem[offset..r.offset] == b + mem[offset + 8..r.offset];
  }

  lemma FixedReadPacks(b: seq<byte>, t: ColumnType, offset: nat)
    requires !t.StringType? && |b| == FixedSize(t) && ReadFixed(b, t, offset).Got?
    ensures var r := ReadFixed(b, t, offset);
            HasType(r.value, t) && r.offset == offset + |b| && Pack(r.value) == b
  {
    EncodeOfValue(b);
    match t {
      case Int32Type =>
        SignedIsValue(b);
        hide SignedValue;
      case UInt64Type =>
        Limits();
        ValueBound(b);
      case FloatType =>
      case BoolType =>
        assert b == [b[0]];
    }
    hide Encode, Value;
  }

  lemma SignedIsValue(b: seq<byte>)
    requires |b| == 4
    ensures -I32_LIMIT <= SignedValue(b) < I32_LIMIT && SignedValue(b) % U32_LIMIT == Value(b)
  {
    Limits();
    ValueBound(b);
    hide Value;
  }

  // ---- whole records ----

  function Placed(target: seq<ColumnValue>, start: nat, vs: seq<ColumnValue>): seq<ColumnValue>
    requires start + |vs| <= |target|
  {
    target[..start] + vs + target[start + |vs|..]
  }

  // Reading back what was packed, at any column offset, with anything behind the record: the same
  // values, exactly the packed size consumed, every other column of the target as it was.
  lemma {:induction false} RecordRoundTrip(mem: seq<byte>, size: nat, types: seq<ColumnType>, start: nat,
                                           vs: seq<ColumnValue>, target: seq<ColumnValue>)
    requires |types| == |target| && WellTyped(vs, types, start)
    requires PackAll(vs) <= mem && |PackAll(vs)| <= size < U64_LIMIT
    ensures ReadColumns(mem, size, types, start, start + |vs|, target) ==
            Reading(Fine, RecordSize(vs, types, start), Placed(target, start, vs))
  {
    hide Pack, ReadColumn, HasType;
    PackAllSize(vs, types, start);
    if vs == [] {
      assert Placed(target, start, vs) == target;
    } else {
      var front := vs[..|vs| - 1];
      assert PackAll(vs) == PackAll(front) + Pack(vs[|vs| - 1]);
      assert PackAll(front) <= mem;
      hide RecordSize, PackAll, Placed, ReadColumns;
      RecordRoundTrip(mem, size, types, start, front, target);
      PackAllSize(front, types, start);
      RoundTripStep(mem, size, types, start, vs, target);
    }
  }

  lemma RoundTripStep(mem: seq<byte>, size: nat, types: seq<ColumnType>, start: nat, vs: seq<ColumnValue>,
                      target: seq<ColumnValue>)
    requires vs != [] && |types| == |target| && WellTyped(vs, types, start)
    requires var front, v := vs[..|vs| - 1], vs[|vs| - 1];
             && PackAll(front) + Pack(v) <= mem && |PackAll(front)| + |Pack(v)| <= size < U64_LIMIT
             && ReadColumns(mem, size, types, start, start + |vs| - 1, target) ==
                Reading(Fine, |PackAll(front)|, Placed(target, start, front))
    ensures var front, v := vs[..|vs| - 1], vs[|vs| - 1];
            ReadColumns(mem, size, types, start, start + |vs|, target) ==
            Reading(Fine, |PackAll(front)| + |Pack(v)|, Placed(target, start, vs))
  {
    hide Pack, ReadColumn, ReadColumns, HasType, PackAll, Placed;
    var n := |vs| - 1;
    ColumnRoundTrip(mem, size, PackAll(vs[..n]), vs[n], types[start + n]);
    ReadNext(mem, size, types, start, start + n, target);
    PlacedOneMore(target, start, vs);
  }

  lemma PlacedOneMore(target: seq<ColumnValue>, start: nat, vs: seq<ColumnValue>)
    requires vs != [] && start + |vs| <= |target|
    ensures var n := |vs| - 1;
            && |Placed(target, start, vs[..n])| == |target|
            && Placed(target, start, vs[..n])[start + n := vs[n]] == Placed(target, start, vs)
  {
  }

  lemma ColumnsMore(target: seq<ColumnValue>, start: nat, end: nat, v: ColumnValue)
    requires start < end <= |target|
    ensures target[end - 1 := v][start..end] == target[start..end - 1] + [v]
  {
  }

  lemma WellTypedMore(vs: seq<ColumnValue>, types: seq<ColumnType>, start: nat, v: ColumnValue)
    requires WellTyped(vs, types, start) && start + |vs| < |types| && HasType(v, types[start + |vs|])
    ensures WellTyped(vs + [v], types, start)
  {
    hide HasType;
  }

  lemma PackAllMore(vs: seq<ColumnValue>, v: ColumnValue)
    ensures PackAll(vs + [v]) == PackAll(vs) + Pack(v)
  {
    assert (vs + [v])[..|vs|] == vs;
  }

  // The other way round: whatever the reader accepts is the packing of the values it returns.
  lemma {:induction false} RecordReadPacks(mem: seq<byte>, size: nat, types: seq<ColumnType>, start: nat, end: nat,
                                           target: seq<ColumnValue>)
    requires start <= end <= |types| == |target|
    requires ReadColumns(mem, size, types, start, end, target).status == Fine
    ensures var r := ReadColumns(mem, size, types, start, end, target);
            && WellTyped(r.target[start..end], types, start)
            && r.offset <= |mem| && PackAll(r.target[start..end]) == mem[..r.offset]
  {
    hide ReadColumn, HasType, Pack;
    if start < end {
      hide ReadColumns, PackAll, WellTyped;
      var q := ReadColumns(mem, size, types, start, end - 1, target);
      ReadNext(mem, size, types, start, end - 1, target);
      ErrorIsNotFine(mem, size, q.offset, types[end - 1]);
      RecordReadPacks(mem, size, types, start, end - 1, target);
      ColumnReadPacks(mem, size, q.offset, types[end - 1]);
      var v := ReadColumn(mem, size, q.offset, types[end - 1]);
      ColumnsMore(q.target, start, end, v.value);
      WellTypedMore(q.target[start..end - 1], types, start, v.value);
      PackAllMore(q.target[start..end - 1], v.value);
      Joined(mem, q.offset, v.offset);
    }
  }

  lemma Joined(mem: seq<byte>, a: nat, b: nat)
    requires a <= b <= |mem|
    ensures mem[..a] + mem[a..b] == mem[..b]
  {
  }

  // ---- when the reader leaves the item ----

  // A string is accepted exactly when its length is at most what is left, and lies in the item
  // exactly when that also holds with the eight bytes of the length added.
  lemma StringStaysExactly(mem: seq<byte>, size: nat, offset: nat)
    requires offset <= size <= |mem| < U64_LIMIT && offset + 8 <= |mem|
    ensures var n, r := Value(mem[offset..offset + 8]), ReadColumn(mem, size, offset, StringType);
            && (r == Not(Failed(InvalidData)) <==> n > size - offset)
            && ((r.Got? && r.offset <= size) <==> 8 + n <= size - offset)
  {
  }

  // An item of ten bytes that claims five bytes of text is read three bytes past its end.
  lemma StringPastEnd(mem: seq<byte>)
    requires |mem| >= 13 && mem[..8] == [5, 0, 0, 0, 0, 0, 0, 0]
    ensures ReadColumn(mem, 10, 0, StringType) == Got(Str(mem[8..13]), 13)
  {
    var b := mem[..8];
    assert mem[0..8] == b;
    assert Value(b) == 5 by {
      ValueOfZeros(b[1..]);
    }
    hide Value;
  }

  // Without string columns the reader never leaves the item.
  lemma {:induction false} FixedColumnsStay(mem: seq<byte>, size: nat, types: seq<ColumnType>, start: nat, end: nat,
                                            target: seq<ColumnValue>)
    requires start <= end <= |types| == |target| && size <= |mem| < U64_LIMIT
    requires forall k :: start <= k < end ==> !types[k].StringType?
    ensures var r := ReadColumns(mem, size, types, start, end, target);
            !r.status.Beyond? && r.offset <= size
  {
    if start < end {
      hide ReadColumn, ReadColumns;
      FixedColumnsStay(mem, size, types, start, end - 1, target);
      ReadNext(mem, size, types, start, end - 1, target);
      FixedColumnStays(mem, size, ReadColumns(mem, size, types, start, end - 1, target).offset, types[end - 1]);
    }
  }

  // When a column of fixed size is refused, and as what.
  lemma FixedErrors(mem: seq<byte>, size: nat, offset: nat, t: ColumnType)
    requires offset <= size <= |mem| < U64_LIMIT && !t.StringType?
    ensures var r, n := ReadColumn(mem, size, offset, t), if t.BoolType? then 1 else if t.UInt64Type? then 8 else 4;
            && (r == Not(Failed(IncorrectItemSize)) <==> size - offset < n)
            && (r == Not(Failed(InvalidData)) <==> t.BoolType? && offset < size && mem[offset] > 1)
            && (r.Got? <==> offset + n <= size && (t.BoolType? ==> mem[offset] <= 1))
  {
    hide Value, SignedValue;
  }

  lemma FixedColumnStays(mem: seq<byte>, size: nat, offset: nat, t: ColumnType)
    requires offset <= size <= |mem| < U64_LIMIT && !t.StringType?
    ensures var r := ReadColumn(mem, size, offset, t);
            r != Not(Beyond) && (r.Got? ==> r.offset <= size)
  {
  }

  // ---- the loops ----

  method CopyInto(target: array<byte>, p: nat, b: seq<byte>)
    requires p + |b| <= target.Length
    modifies target
    ensures target[..] == Overwrite(old(target[..]), p, b)
  {
    var k := 0;
    while k < |b|
      invariant 0 <= k <= |b|
      invariant target[..] == Overwrite(old(target[..]), p, b[..k])
    {
      target[p + k] := b[k];
      k := k + 1;
    }
    assert b[..k] == b;
  }

  // string_pack: the length, then the characters.
  method StringPack(s: seq<byte>, target: array<byte>, p: nat)
    requires p + 8 + |s| <= target.Length
    modifies target
    ensures target[..] == Overwrite(old(target[..]), p, Pack(Str(s)))
  {
    CopyInto(target, p, Encode(|s|, 8));
    CopyInto(target, p + 8, s);
    assert target[..] == Overwrite(old(target[..]), p, Pack(Str(s)));
  }

  method SerializeColumn(target: array<byte>, offset: nat, t: ColumnType, v: ColumnValue) returns (after: nat)
    requires HasType(v, t) && offset + ColumnSize(v, t) <= target.Length
    modifies target
    ensures target[..] == Overwrite(old(target[..]), offset, Pack(v)) && after == offset + ColumnSize(v, t)
  {
    match t
    case Int32Type => CopyInto(target, offset, Encode(v.i % U32_LIMIT, 4)); after := offset + 4;
    case UInt64Type => CopyInto(target, offset, Encode(v.u, 8)); after := offset + 8;
    case FloatType => CopyInto(target, offset, v.f); after := offset + 4;
    case StringType => StringPack(v.s, target, offset); after := offset + 8 + |v.s|;
    case BoolType => CopyInto(target, offset, [if v.b then 1 else 0]); after := offset + 1;
  }

  lemma {:induction false} RecordSizeSplit(vs: seq<ColumnValue>, types: seq<ColumnType>, k: nat)
    requires WellTyped(vs, types, 0) && k <= |vs|
    ensures RecordSize(vs[..k], types, 0) <= RecordSize(vs, types, 0)
    ensures k < |vs| ==>
              RecordSize(vs[..k + 1], types, 0) == RecordSize(vs[..k], types, 0) + ColumnSize(vs[k], types[k])
    decreases |vs|
  {
    hide ColumnSize, HasType;
    if k < |vs| {
      assert vs[..k + 1][..k] == vs[..k];
      assert vs[..|vs| - 1][..k] == vs[..k];
      RecordSizeSplit(vs[..|vs| - 1], types, k);
    } else {
      assert vs[..k] == vs;
    }
  }

  // record_serialize_into: the record packed at the front of the target, the rest as it was.
  method RecordSerializeInto(vs: seq<ColumnValue>, types: seq<ColumnType>, target: array<byte>)
    requires WellTyped(vs, types, 0) && RecordSize(vs, types, 0) <= target.Length
    modifies target
    ensures |PackAll(vs)| <= target.Length && target[..] == Overwrite(old(target[..]), 0, PackAll(vs))
  {
    hide Pack, ColumnSize, RecordSize, PackAll, Overwrite, HasType;
    PackAllSize(vs, types, 0);
    NothingPacked(target[..], vs, types);
    var offset, k := 0, 0;
    while k < |vs|
      invariant 0 <= k <= |vs| && offset == RecordSize(vs[..k], types, 0) == |PackAll(vs[..k])|
      invariant offset <= target.Length
      invariant target[..] == Overwrite(old(target[..]), 0, PackAll(vs[..k]))
    {
      RecordSizeSplit(vs, types, k);
      RecordSizeSplit(vs, types, k + 1);
      PackSize(vs[k], types[k]);
      PackAllNext(vs, k);
      offset := SerializeColumn(target, offset, types[k], vs[k]);
      OverwriteTwice(old(target[..]), PackAll(vs[..k]), Pack(vs[k]));
      k := k + 1;
    }
    assert vs[..k] == vs;
  }

  lemma PackAllNext(vs: seq<ColumnValue>, k: nat)
    requires k < |vs|
    ensures PackAll(vs[..k + 1]) == PackAll(vs[..k]) + Pack(vs[k])
  {
    assert vs[..k + 1][..k] == vs[..k];
  }

  lemma NothingPacked(c: seq<byte>, vs: seq<ColumnValue>, types: seq<ColumnType>)
    requires WellTyped(vs, types, 0)
    ensures RecordSize(vs[..0], types, 0) == |PackAll(vs[..0])| == 0 && Overwrite(c, 0, PackAll(vs[..0])) == c
  {
  }

  lemma OverwriteTwice(c: seq<byte>, a: seq<byte>, b: seq<byte>)
    requires |a| + |b| <= |c|
    ensures Overwrite(Overwrite(c, 0, a), |a|, b) == Overwrite(c, 0, a + b)
  {
  }

  method RecordSerialize(vs: seq<ColumnValue>, types: seq<ColumnType>) returns (item: array<byte>)
    requires WellTyped(vs, types, 0)
    ensures fresh(item) && item[..] == PackAll(vs)
  {
    var size, k := 0, 0;
    while k < |vs|
      invariant 0 <= k <= |vs| && size == RecordSize(vs[..k], types, 0)
    {
      hide ColumnSize, HasType;
      RecordSizeSplit(vs, types, k);
      size := size + ColumnSize(vs[k], types[k]);
      k := k + 1;
    }
    assert vs[..k] == vs;
    PackAllSize(vs, types, 0);
    item := new byte[size];
    RecordSerializeInto(vs, types, item);
  }

  method RecordDeserialize(mem: array<byte>, size: nat, types: seq<ColumnType>, start: nat, end: nat,
                           target: array<ColumnValue>)
    returns (status: Status, ghost offset: nat)
    requires start <= end <= |types| == target.Length
    modifies target
    ensures Reading(status, offset, target[..]) == ReadColumns(mem[..], size, types, start, end, old(target[..]))
  {
    hide ReadColumn;
    ghost var before := target[..];
    var at, k := 0, start;
    status, offset := Fine, 0;
    while k < end
      invariant start <= k <= end && status == Fine && offset == at
      invariant Reading(Fine, at, target[..]) == ReadColumns(mem[..], size, types, start, k, before)
    {
      hide ReadColumns;
      ReadNext(mem[..], size, types, start, k, before);
      ErrorIsNotFine(mem[..], size, at, types[k]);
      match ReadColumn(mem[..], size, at, types[k]) {
        case Not(bad) =>
          status := bad;
          NotFine(mem[..], size, types, start, k + 1, end, before);
          return;
        case Got(v, after) =>
          StoreIs(target[..], k, v);
          target[k] := v;
          at, offset := after, after;
      }
      k := k + 1;
    }
  }

  lemma StoreIs(s: seq<ColumnValue>, k: nat, v: ColumnValue)
    requires k < |s|
    ensures s[k := v] == s[..k] + [v] + s[k + 1..]
  {
  }

  // After a failure nothing more is read.
  lemma {:induction false} NotFine(mem: seq<byte>, size: nat, types: seq<ColumnType>, start: nat, k: nat, end: nat,
                                   target: seq<ColumnValue>)
    requires start <= k <= end <= |types| == |target|
    requires ReadColumns(mem, size, types, start, k, target).status != Fine
    ensures ReadColumns(mem, size, types, start, end, target) == ReadColumns(mem, size, types, start, k, target)
    decreases end
  {
    hide ReadColumn;
    if k < end {
      NotFine(mem, size, types, start, k, end - 1, target);
    }
  }
}
