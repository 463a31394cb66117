/** The size rule of memusage.go: `size` charges a value its type's fixed size
    and then, by kind, the sizes of what it refers to or contains; `Bytes` is
    `size` applied to the dynamic value of its argument.

    `Size` and `Bytes` are the specification, in exact (unbounded) bytes.
    `SizeU64` and `BytesU64` are the loop-accumulating code, whose `uint64`
    accumulator wraps modulo 2^64, proved equal to the specification reduced
    modulo 2^64. */
module MemUsage {
  import opened Reflect

  /** What a call to `size` does: return a byte count, or panic. */
  datatype Outcome = Ok(bytes: nat) | Panicked(reason: Panic)

  /** Running two sizing steps one after the other: the first panic wins,
      otherwise the byte counts add up. */
  function Plus(a: Outcome, b: Outcome): (r: Outcome)
    ensures r.Ok? <==> a.Ok? && b.Ok?
    ensures r.Ok? ==> r.bytes == a.bytes + b.bytes
    ensures a.Panicked? ==> r == a
    ensures a.Ok? && b.Panicked? ==> r == b
  {
    if a.Panicked? then a else if b.Panicked? then b else Ok(a.bytes + b.bytes)
  }

  /** `size(v)`. `mark` is the read-only mark `v` carries because it was
      reached through an unexported struct field (see `Reflect.Mark`):
      `Elem` keeps it, `Index`, `MapKeys` and `MapIndex` make it sticky,
      `Field` follows `Reflect.FieldMark`, and `Interface()` refuses a marked
      value. */
  function Size(v: Value, mark: Mark): (r: Outcome)
    decreases v
    ensures r.Ok? ==> r.bytes >= v.typeSize
    ensures v.Other? || IsNilHandle(v) ==> r == Ok(v.typeSize)
    ensures v.Str? ==> r == Ok(v.typeSize + v.len)
    ensures v.Array? ==> r == Panicked(IsNilOnArray)
    ensures v.Iface? && v.dynamic.Some? && mark != Clear ==> r == Panicked(UnexportedInterface)
  {
    match v
    case Other(t) => Ok(t)
    case Ptr(t, elem) =>
      if elem.None? then Ok(t) else Plus(Ok(t), Size(elem.value, mark))
    case Str(t, n) => Ok(t + n)
    case Array(_, _) => Panicked(IsNilOnArray)
    case Slice(t, _, backing) =>
      if backing.NilSlice? then Ok(t) else Plus(Ok(t), SizeSeq(backing.elems, IndexMark(mark)))
    case Map(t, table) =>
      if table.NilMap? then Ok(t) else Plus(Ok(t), SizeEntries(table.entries, IndexMark(mark)))
    case Struct(t, fields) => Plus(Ok(t), SizeFields(fields, mark))
    case Iface(t, dynamic) =>
      if dynamic.None? then Ok(t)
      else if mark != Clear then Panicked(UnexportedInterface)
      // reflect.ValueOf(v.Interface()) builds a fresh, unmarked Value
      else Plus(Ok(t), Size(dynamic.value, Clear))
  }

  /** The slice loop: the sizes of elements 0 .. Len-1, in index order, each
      carrying the mark `mark`. */
  function SizeSeq(vs: seq<Value>, mark: Mark): (r: Outcome)
    decreases vs
    ensures vs == [] ==> r == Ok(0)
    ensures r.Ok? <==> forall i :: 0 <= i < |vs| ==> Size(vs[i], mark).Ok?
  {
    if vs == [] then Ok(0)
    else
      assert forall i :: 1 <= i < |vs| ==> vs[1..][i - 1] == vs[i];
      Plus(Size(vs[0], mark), SizeSeq(vs[1..], mark))
  }

  /** The struct loop: the sizes of the fields in declaration order, where
      `mark` is the struct's own mark. */
  function SizeFields(fs: seq<Field>, mark: Mark): (r: Outcome)
    decreases fs
    ensures fs == [] ==> r == Ok(0)
    ensures r.Ok? <==> forall i :: 0 <= i < |fs| ==> SizeField(fs[i], mark).Ok?
  {
    if fs == [] then Ok(0)
    else
      assert forall i :: 1 <= i < |fs| ==> fs[1..][i - 1] == fs[i];
      Plus(SizeField(fs[0], mark), SizeFields(fs[1..], mark))
  }

  /** One struct field of a struct marked `mark`, as `v.Field(i)` hands it
      over: an exported field keeps only a sticky mark, an unexported embedded
      field is marked embedded-read-only unless the struct is sticky, and any
      other unexported field is marked sticky. */
  function SizeField(f: Field, mark: Mark): (r: Outcome)
    decreases f
    ensures f.exported ==> r == Size(f.value, if mark == StickyRO then StickyRO else Clear)
    ensures !f.exported && f.embedded && mark != StickyRO ==> r == Size(f.value, EmbedRO)
    ensures !f.exported && (!f.embedded || mark == StickyRO) ==> r == Size(f.value, StickyRO)
  {
    Size(f.value, FieldMark(mark, f))
  }

  /** The map loop: for each key in `MapKeys` order, the key's size and then
      its value's size, each carrying the mark `mark`. */
  function SizeEntries(es: seq<Entry>, mark: Mark): (r: Outcome)
    decreases es
    ensures es == [] ==> r == Ok(0)
    ensures r.Ok? <==> forall i :: 0 <= i < |es| ==> SizeEntry(es[i], mark).Ok?
  {
    if es == [] then Ok(0)
    else
      assert forall i :: 1 <= i < |es| ==> es[1..][i - 1] == es[i];
      Plus(SizeEntry(es[0], mark), SizeEntries(es[1..], mark))
  }

  /** One map entry: `size(k)` and then `size(v.MapIndex(k))`. A lookup that
      finds nothing hands `size` the zero Value, whose `Type()` panics. */
  function SizeEntry(e: Entry, mark: Mark): (r: Outcome)
    decreases e
    ensures r.Ok? <==> Size(e.key, mark).Ok? && e.elem.Some? && Size(e.elem.value, mark).Ok?
    ensures r.Ok? ==> r.bytes == Size(e.key, mark).bytes + Size(e.elem.value, mark).bytes
    ensures Size(e.key, mark).Ok? && e.elem.None? ==> r == Panicked(InvalidValue)
    ensures Size(e.key, mark).Panicked? ==> r == Size(e.key, mark)
  {
    Plus(Size(e.key, mark), if e.elem.None? then Panicked(InvalidValue) else Size(e.elem.value, mark))
  }

  /** `Bytes(obj)`: `obj` is an `interface{}`, here its dynamic value or `None`
      for nil. `reflect.ValueOf(nil)` is the zero Value, whose `Type()` panics;
      any other argument is sized unmarked. */
  function Bytes(obj: Option<Value>): (r: Outcome)
    ensures obj.None? ==> r == Panicked(InvalidValue)
    ensures obj.Some? ==> r == Size(obj.value, Clear)
  {
    if obj.None? then Panicked(InvalidValue) else Size(obj.value, Clear)
  }

  // ---------------------------------------------------------------------------
  // The three loops run over a concatenation as over its parts, one after the
  // other. The loop code needs this to extend its prefix by one element.

  lemma {:induction false} SizeSeqAppend(a: seq<Value>, b: seq<Value>, mark: Mark)
    ensures SizeSeq(a + b, mark) == Plus(SizeSeq(a, mark), SizeSeq(b, mark))
    decreases a
  {
    if a == [] {
      assert a + b == b;
    } else {
      assert (a + b)[1..] == a[1..] + b;
      SizeSeqAppend(a[1..], b, mark);
    }
  }

  lemma {:induction false} SizeFieldsAppend(a: seq<Field>, b: seq<Field>, mark: Mark)
    ensures SizeFields(a + b, mark) == Plus(SizeFields(a, mark), SizeFields(b, mark))
    decreases a
  {
    if a == [] {
      assert a + b == b;
    } else {
      assert (a + b)[1..] == a[1..] + b;
      SizeFieldsAppend(a[1..], b, mark);
    }
  }

  lemma {:induction false} SizeEntriesAppend(a: seq<Entry>, b: seq<Entry>, mark: Mark)
    ensures SizeEntries(a + b, mark) == Plus(SizeEntries(a, mark), SizeEntries(b, mark))
    decreases a
  {
    if a == [] {
      assert a + b == b;
    } else {
      assert (a + b)[1..] == a[1..] + b;
      SizeEntriesAppend(a[1..], b, mark);
    }
  }

  /** One more turn of the slice loop: the prefix grows by element `i`, and a
      panic there is the panic of the whole loop. */
  lemma SeqStep(vs: seq<Value>, i: nat, mark: Mark)
    requires i < |vs|
    ensures SizeSeq(vs[..i + 1], mark) == Plus(SizeSeq(vs[..i], mark), Size(vs[i], mark))
    ensures SizeSeq(vs[..i], mark).Ok? && Size(vs[i], mark).Panicked? ==>
      SizeSeq(vs, mark) == Size(vs[i], mark)
  {
    assert vs[..i + 1] == vs[..i] + [vs[i]];
    SizeSeqAppend(vs[..i], [vs[i]], mark);
    assert vs == vs[..i + 1] + vs[i + 1..];
    SizeSeqAppend(vs[..i + 1], vs[i + 1..], mark);
  }

  /** One more turn of the struct loop. */
  lemma FieldsStep(fs: seq<Field>, i: nat, mark: Mark)
    requires i < |fs|
    ensures SizeFields(fs[..i + 1], mark) == Plus(SizeFields(fs[..i], mark), SizeField(fs[i], mark))
    ensures SizeFields(fs[..i], mark).Ok? && SizeField(fs[i], mark).Panicked? ==>
      SizeFields(fs, mark) == SizeField(fs[i], mark)
  {
    assert fs[..i + 1] == fs[..i] + [fs[i]];
    SizeFieldsAppend(fs[..i], [fs[i]], mark);
    assert fs == fs[..i + 1] + fs[i + 1..];
    SizeFieldsAppend(fs[..i + 1], fs[i + 1..], mark);
  }

  /** One more turn of the map loop: a panic on the key, or on its value, is
      the panic of the whole loop. */
  lemma EntriesStep(es: seq<Entry>, i: nat, mark: Mark)
    requires i < |es|
    ensures SizeEntries(es[..i + 1], mark) == Plus(SizeEntries(es[..i], mark), SizeEntry(es[i], mark))
    ensures SizeEntries(es[..i], mark).Ok? && SizeEntry(es[i], mark).Panicked? ==>
      SizeEntries(es, mark) == SizeEntry(es[i], mark)
  {
    assert es[..i + 1] == es[..i] + [es[i]];
    SizeEntriesAppend(es[..i], [es[i]], mark);
    assert es == es[..i + 1] + es[i + 1..];
    SizeEntriesAppend(es[..i + 1], es[i + 1..], mark);
  }

  // ---------------------------------------------------------------------------
  // uint64 arithmetic

  /** 2^64: `sz` is a `uint64`, so every `+=` wraps modulo this. */
  const WORD: nat := 0x1_0000_0000_0000_0000

  /** A number reduced modulo 2^64, by repeated subtraction. */
  function Wrap(n: nat): (w: nat)
    ensures w < WORD
    decreases n
  {
    if n < WORD then n else Wrap(n - WORD)
  }

  /** `Wrap` is reduction modulo 2^64. */
  lemma {:induction false} WrapIsMod(n: nat)
    ensures Wrap(n) == n % WORD
    decreases n
  {
    if n >= WORD {
      WrapIsMod(n - WORD);
    }
  }

  /** `a + b` on two `uint64` operands: the carry out of bit 63 is lost. */
  function AddU64(a: nat, b: nat): (r: nat)
    requires a < WORD && b < WORD
    ensures r < WORD && (r == a + b || r == a + b - WORD)
  {
    if a + b < WORD then a + b else a + b - WORD
  }

  /** An exact outcome as a `uint64` accumulator holds it. */
  function ToU64(r: Outcome): (w: Outcome)
    ensures w.Panicked? <==> r.Panicked?
    ensures w.Panicked? ==> w == r
    ensures w.Ok? ==> w.bytes < WORD && (r.bytes < WORD ==> w == r)
  {
    if r.Ok? then Ok(Wrap(r.bytes)) else r
  }

  /** One `sz += x` on an accumulator that holds `acc` modulo 2^64 ends holding
      `acc + x` modulo 2^64: wrapping after every addition ends where wrapping
      once at the end does. */
  lemma Accumulate(sz: nat, acc: nat, x: nat)
    requires sz == Wrap(acc)
    ensures AddU64(sz, Wrap(x)) == Wrap(acc + x)
  {
    WrapIsMod(acc);
    WrapIsMod(x);
    WrapIsMod(acc + x);
    var qa, qx := acc / WORD, x / WORD;
    assert acc == qa * WORD + acc % WORD;
    assert x == qx * WORD + x % WORD;
    assert acc + x == (qa + qx) * WORD + (acc % WORD + x % WORD);
  }

  /** `size(v)` as memusage.go:16-48 computes it, with the `uint64` accumulator
      `sz` updated step by step. The three loops are the methods below it. */
  method SizeU64(v: Value, mark: Mark) returns (r: Outcome)
    ensures r == ToU64(Size(v, mark))
    decreases v, 1
  {
    // uint64(v.Type().Size()) and uint64(v.Len()) are conversions from uintptr
    // and from a non-negative int: neither changes a value that fits.
    match v {
      case Other(t) =>
        r := Ok(Wrap(t));
      case Ptr(t, elem) =>
        if elem.None? {
          return Ok(Wrap(t));
        }
        var e := SizeU64(elem.value, mark);
        if e.Panicked? {
          return e;
        }
        Accumulate(Wrap(t), t, Size(elem.value, mark).bytes);
        r := Ok(AddU64(Wrap(t), e.bytes));
      case Str(t, n) =>
        Accumulate(Wrap(t), t, n);
        r := Ok(AddU64(Wrap(t), Wrap(n)));
      case Array(_, _) =>
        // the shared Array/Slice case asks IsNil first, which panics on an array
        r := Panicked(IsNilOnArray);
      case Slice(_, _, _) =>
        r := SliceU64(v, mark);
      case Map(_, _) =>
        r := MapU64(v, mark);
      case Struct(_, _) =>
        r := StructU64(v, mark);
      case Iface(t, dynamic) =>
        if dynamic.None? {
          return Ok(Wrap(t));
        }
        if mark != Clear {
          // v.Interface() refuses a value that carries a read-only mark
          return Panicked(UnexportedInterface);
        }
        var e := SizeU64(dynamic.value, Clear);
        if e.Panicked? {
          return e;
        }
        Accumulate(Wrap(t), t, Size(dynamic.value, Clear).bytes);
        r := Ok(AddU64(Wrap(t), e.bytes));
    }
  }

  /** The Slice case of `size`: a loop over indices 0 .. Len-1 (memusage.go:25-30). */
  method SliceU64(v: Value, mark: Mark) returns (r: Outcome)
    requires v.Slice?
    ensures r == ToU64(Size(v, mark))
    decreases v, 0
  {
    var t := v.typeSize;
    var sz: nat := Wrap(t);
    if v.backing.NilSlice? {
      return Ok(sz);
    }
    var vs, m := v.backing.elems, IndexMark(mark);
    ghost var acc: nat := t;
    var i := 0;
    while i < |vs|
      invariant 0 <= i <= |vs|
      invariant SizeSeq(vs[..i], m).Ok?
      invariant acc == t + SizeSeq(vs[..i], m).bytes
      invariant sz == Wrap(acc)
    {
      assert vs[i] in vs;
      var e := SizeU64(vs[i], m);
      SeqStep(vs, i, m);
      if e.Panicked? {
        return e;
      }
      ghost var x := Size(vs[i], m).bytes;
      Accumulate(sz, acc, x);
      sz := AddU64(sz, e.bytes);
      acc := acc + x;
      i := i + 1;
    }
    assert vs[..i] == vs;
    r := Ok(sz);
  }

  /** The Map case of `size`: a loop over `MapKeys`, sizing each key and then
      its value (memusage.go:31-37). */
  method MapU64(v: Value, mark: Mark) returns (r: Outcome)
    requires v.Map?
    ensures r == ToU64(Size(v, mark))
    decreases v, 0
  {
    var t := v.typeSize;
    var sz: nat := Wrap(t);
    if v.table.NilMap? {
      return Ok(sz);
    }
    var es, m := v.table.entries, IndexMark(mark);
    ghost var acc: nat := t;
    var i := 0;
    while i < |es|
      invariant 0 <= i <= |es|
      invariant SizeEntries(es[..i], m).Ok?
      invariant acc == t + SizeEntries(es[..i], m).bytes
      invariant sz == Wrap(acc)
    {
      assert es[i] in es;
      var e := EntryU64(es[i], m);
      EntriesStep(es, i, m);
      if e.Panicked? {
        return e;
      }
      ghost var x := SizeEntry(es[i], m).bytes;
      Accumulate(sz, acc, x);
      sz := AddU64(sz, e.bytes);
      acc := acc + x;
      i := i + 1;
    }
    assert es[..i] == es;
    r := Ok(sz);
  }

  /** One pass of the Map loop body: the key's size and then its value's,
      added in `uint64` (memusage.go:33-36). */
  method EntryU64(e: Entry, mark: Mark) returns (r: Outcome)
    ensures r == ToU64(SizeEntry(e, mark))
    decreases e, 0
  {
    var k := SizeU64(e.key, mark);
    if k.Panicked? {
      return k;
    }
    if e.elem.None? {
      // MapIndex found nothing: size's first v.Type() panics on the zero Value
      return Panicked(InvalidValue);
    }
    var x := SizeU64(e.elem.value, mark);
    if x.Panicked? {
      return x;
    }
    Accumulate(k.bytes, Size(e.key, mark).bytes, Size(e.elem.value, mark).bytes);
    r := Ok(AddU64(k.bytes, x.bytes));
  }

  /** The Struct case of `size`: a loop over the fields (memusage.go:38-41). */
  method StructU64(v: Value, mark: Mark) returns (r: Outcome)
    requires v.Struct?
    ensures r == ToU64(Size(v, mark))
    decreases v, 0
  {
    var t := v.typeSize;
    var fs := v.fields;
    var sz: nat := Wrap(t);
    ghost var acc: nat := t;
    var i := 0;
    while i < |fs|
      invariant 0 <= i <= |fs|
      invariant SizeFields(fs[..i], mark).Ok?
      invariant acc == t + SizeFields(fs[..i], mark).bytes
      invariant sz == Wrap(acc)
    {
      assert fs[i] in fs;
      var e := SizeU64(fs[i].value, FieldMark(mark, fs[i]));
      FieldsStep(fs, i, mark);
      if e.Panicked? {
        return e;
      }
      ghost var x := SizeField(fs[i], mark).bytes;
      Accumulate(sz, acc, x);
      sz := AddU64(sz, e.bytes);
      acc := acc + x;
      i := i + 1;
    }
    assert fs[..i] == fs;
    r := Ok(sz);
  }

  /** `Bytes(obj)` as memusage.go:12-14 computes it. */
  method BytesU64(obj: Option<Value>) returns (r: Outcome)
    ensures r == ToU64(Bytes(obj))
  {
    if obj.None? {
      // reflect.ValueOf(nil) is the zero Value; size's first v.Type() panics
      return Panicked(InvalidValue);
    }
    r := SizeU64(obj.value, Clear);
  }
}
