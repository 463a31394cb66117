/** What memusage.go's `size` and `Bytes` promise, proved about the
    specification functions of module MemUsage.

    The central fact ties `Size` to a reference definition that does not add
    anything up as it goes: `Walk` lists every call `size` makes, root first,
    and `Size` is the total of each visited node's own bytes, or a panic
    exactly when the walk meets a node reflect refuses. */
module MemUsageProperties {
  import opened Reflect
  import opened MemUsage

  // ---------------------------------------------------------------------------
  // The reference definition: the calls `size` makes

  /** One call of `size`: the value it is given and the read-only mark that
      value carries, or a call on the zero Value. */
  datatype Visit = Visit(node: Value, mark: Mark) | Zero

  /** Every call `size(v)` leads to, in the order they are made, `v` first.
      A node is listed once per path that reaches it: there is no visited set. */
  function Walk(v: Value, mark: Mark): seq<Visit>
    decreases v
  {
    [Visit(v, mark)] +
    match v
    case Ptr(_, Some(x)) => Walk(x, mark)
    case Slice(_, _, SliceOf(vs)) => WalkSeq(vs, IndexMark(mark))
    case Map(_, MapOf(es)) => WalkEntries(es, IndexMark(mark))
    case Struct(_, fs) => WalkFields(fs, mark)
    case Iface(_, Some(x)) => Walk(x, Clear)
    case _ => []
  }

  function WalkSeq(vs: seq<Value>, mark: Mark): seq<Visit>
    decreases vs
  {
    if vs == [] then [] else Walk(vs[0], mark) + WalkSeq(vs[1..], mark)
  }

  function WalkField(f: Field, mark: Mark): seq<Visit>
    decreases f
  {
    Walk(f.value, FieldMark(mark, f))
  }

  function WalkFields(fs: seq<Field>, mark: Mark): seq<Visit>
    decreases fs
  {
    if fs == [] then [] else WalkField(fs[0], mark) + WalkFields(fs[1..], mark)
  }

  function WalkEntry(e: Entry, mark: Mark): seq<Visit>
    decreases e
  {
    Walk(e.key, mark) + if e.elem.None? then [Zero] else Walk(e.elem.value, mark)
  }

  function WalkEntries(es: seq<Entry>, mark: Mark): seq<Visit>
    decreases es
  {
    if es == [] then [] else WalkEntry(es[0], mark) + WalkEntries(es[1..], mark)
  }

  /** The bytes a node is charged for itself: its type's fixed size, and for a
      string its byte length. */
  function Own(v: Value): nat {
    v.typeSize + if v.Str? then v.len else 0
  }

  /** The bytes a call is charged for its node alone. */
  function Charge(c: Visit): nat {
    if c.Zero? then 0 else Own(c.node)
  }

  /** The bytes charged over a list of calls. */
  function Total(w: seq<Visit>): nat {
    if w == [] then 0 else Charge(w[0]) + Total(w[1..])
  }

  /** A call at which reflect panics: `Type` on the zero Value, `IsNil` on an
      array, or `Interface` on a marked non-nil interface. */
  predicate Refused(c: Visit) {
    || c.Zero?
    || c.node.Array?
    || (c.node.Iface? && c.node.dynamic.Some? && c.mark != Clear)
  }

  /** No call in the list panics. */
  predicate Clean(w: seq<Visit>) {
    forall i :: 0 <= i < |w| ==> !Refused(w[i])
  }

  /** An outcome matches a list of calls: it is a byte count exactly when no
      call panics, and then it is the list's total. */
  predicate Agrees(r: Outcome, w: seq<Visit>) {
    && (r.Ok? <==> Clean(w))
    && (r.Ok? ==> r.bytes == Total(w))
  }

  lemma {:induction false} TotalAppend(a: seq<Visit>, b: seq<Visit>)
    ensures Total(a + b) == Total(a) + Total(b)
    decreases a
  {
    if a == [] {
      assert a + b == b;
    } else {
      assert (a + b)[1..] == a[1..] + b;
      TotalAppend(a[1..], b);
    }
  }

  lemma CleanAppend(a: seq<Visit>, b: seq<Visit>)
    ensures Clean(a + b) <==> Clean(a) && Clean(b)
  {
    if Clean(a) && Clean(b) {
      forall i | 0 <= i < |a + b| ensures !Refused((a + b)[i]) {
        if i >= |a| {
          assert (a + b)[i] == b[i - |a|];
        }
      }
    }
    if Clean(a + b) {
      forall i | 0 <= i < |a| ensures !Refused(a[i]) {
        assert (a + b)[i] == a[i];
      }
      forall i | 0 <= i < |b| ensures !Refused(b[i]) {
        assert (a + b)[|a| + i] == b[i];
      }
    }
  }

  /** Running two steps one after the other matches walking their calls one
      after the other. */
  lemma AgreesPlus(r1: Outcome, w1: seq<Visit>, r2: Outcome, w2: seq<Visit>)
    requires Agrees(r1, w1) && Agrees(r2, w2)
    ensures Agrees(Plus(r1, r2), w1 + w2)
  {
    TotalAppend(w1, w2);
    CleanAppend(w1, w2);
    assert Clean(w1 + w2) <==> r1.Ok? && r2.Ok?;
    if r1.Ok? && r2.Ok? {
      assert Plus(r1, r2) == Ok(Total(w1) + Total(w2));
    }
  }

  /** `size(v)` charges the sum of every visited node's own bytes, and panics
      exactly when some visited node is an array or an interface reached
      through an unexported field. Shared targets are charged once per path. */
  lemma {:induction false} SizeIsWalkTotal(v: Value, mark: Mark)
    ensures Agrees(Size(v, mark), Walk(v, mark))
    decreases v
  {
    var here := [Visit(v, mark)];
    assert Total(here) == Own(v);
    match v
    case Ptr(t, Some(x)) =>
      SizeIsWalkTotal(x, mark);
      AgreesPlus(Ok(t), here, Size(x, mark), Walk(x, mark));
    case Slice(t, _, SliceOf(vs)) =>
      SeqIsWalkTotal(vs, IndexMark(mark));
      AgreesPlus(Ok(t), here, SizeSeq(vs, IndexMark(mark)), WalkSeq(vs, IndexMark(mark)));
    case Map(t, MapOf(es)) =>
      EntriesAreWalkTotal(es, IndexMark(mark));
      AgreesPlus(Ok(t), here, SizeEntries(es, IndexMark(mark)), WalkEntries(es, IndexMark(mark)));
    case Struct(t, fs) =>
      FieldsAreWalkTotal(fs, mark);
      AgreesPlus(Ok(t), here, SizeFields(fs, mark), WalkFields(fs, mark));
    case Iface(t, Some(x)) =>
      if mark != Clear {
        assert Refused(Walk(v, mark)[0]);
      } else {
        SizeIsWalkTotal(x, Clear);
        AgreesPlus(Ok(t), here, Size(x, Clear), Walk(x, Clear));
      }
    case _ =>
      assert Walk(v, mark) == here;
  }

  lemma {:induction false} SeqIsWalkTotal(vs: seq<Value>, mark: Mark)
    ensures Agrees(SizeSeq(vs, mark), WalkSeq(vs, mark))
    decreases vs
  {
    if vs != [] {
      SizeIsWalkTotal(vs[0], mark);
      SeqIsWalkTotal(vs[1..], mark);
      AgreesPlus(Size(vs[0], mark), Walk(vs[0], mark),
                 SizeSeq(vs[1..], mark), WalkSeq(vs[1..], mark));
    }
  }

  lemma {:induction false} FieldIsWalkTotal(f: Field, mark: Mark)
    ensures Agrees(SizeField(f, mark), WalkField(f, mark))
    decreases f
  {
    SizeIsWalkTotal(f.value, FieldMark(mark, f));
  }

  lemma {:induction false} FieldsAreWalkTotal(fs: seq<Field>, mark: Mark)
    ensures Agrees(SizeFields(fs, mark), WalkFields(fs, mark))
    decreases fs
  {
    if fs != [] {
      FieldIsWalkTotal(fs[0], mark);
      FieldsAreWalkTotal(fs[1..], mark);
      AgreesPlus(SizeField(fs[0], mark), WalkField(fs[0], mark),
                 SizeFields(fs[1..], mark), WalkFields(fs[1..], mark));
    }
  }

  lemma {:induction false} EntryIsWalkTotal(e: Entry, mark: Mark)
    ensures Agrees(SizeEntry(e, mark), WalkEntry(e, mark))
    decreases e
  {
    SizeIsWalkTotal(e.key, mark);
    if e.elem.None? {
      assert Refused([Zero][0]);
      AgreesPlus(Size(e.key, mark), Walk(e.key, mark), Panicked(InvalidValue), [Zero]);
    } else {
      SizeIsWalkTotal(e.elem.value, mark);
      AgreesPlus(Size(e.key, mark), Walk(e.key, mark),
                 Size(e.elem.value, mark), Walk(e.elem.value, mark));
    }
  }

  lemma {:induction false} EntriesAreWalkTotal(es: seq<Entry>, mark: Mark)
    ensures Agrees(SizeEntries(es, mark), WalkEntries(es, mark))
    decreases es
  {
    if es != [] {
      EntryIsWalkTotal(es[0], mark);
      EntriesAreWalkTotal(es[1..], mark);
      AgreesPlus(SizeEntry(es[0], mark), WalkEntry(es[0], mark),
                 SizeEntries(es[1..], mark), WalkEntries(es[1..], mark));
    }
  }

  // ---------------------------------------------------------------------------
  // Per-kind rules

  /** `Bytes` sizes the dynamic value held by its `interface{}` argument and
      does not charge the box: the same value held in an interface-typed slot
      costs the slot's type size more. A nil argument panics. A pointer
      charges its own size and the whole of its target. */
  lemma HandlesChargeTarget(t: nat, x: Value, mark: Mark)
    ensures Bytes(None) == Panicked(InvalidValue)
    ensures Bytes(Some(x)).Ok? <==> Size(Iface(t, Some(x)), Clear).Ok?
    ensures Bytes(Some(x)).Ok? ==> Size(Iface(t, Some(x)), Clear).bytes == t + Bytes(Some(x)).bytes
    ensures Size(Ptr(t, Some(x)), mark).Ok? <==> Size(x, mark).Ok?
    ensures Size(x, mark).Ok? ==> Size(Ptr(t, Some(x)), mark).bytes == t + Size(x, mark).bytes
  {
  }

  /** A slice is charged by its elements 0 .. Len-1, whatever its capacity. It
      panics exactly when one of its elements does, and then with the panic of
      the first such element. */
  lemma {:induction false} SliceChargesElements(vs: seq<Value>, mark: Mark)
    ensures SizeSeq(vs, mark).Ok? <==> forall i :: 0 <= i < |vs| ==> Size(vs[i], mark).Ok?
    ensures SizeSeq(vs, mark).Panicked? ==>
      exists i :: 0 <= i < |vs| && SizeSeq(vs, mark) == Size(vs[i], mark) &&
        forall j :: 0 <= j < i ==> Size(vs[j], mark).Ok?
    ensures forall t, c1, c2 :: Size(Slice(t, c1, SliceOf(vs)), mark) == Size(Slice(t, c2, SliceOf(vs)), mark)
    decreases vs
  {
    if vs != [] {
      SliceChargesElements(vs[1..], mark);
      assert forall i :: 1 <= i < |vs| ==> vs[i] == vs[1..][i - 1];
      if SizeSeq(vs, mark).Panicked? && Size(vs[0], mark).Ok? {
        var k :| 0 <= k < |vs[1..]| && SizeSeq(vs[1..], mark) == Size(vs[1..][k], mark) &&
          forall j :: 0 <= j < k ==> Size(vs[1..][j], mark).Ok?;
        assert SizeSeq(vs, mark) == Size(vs[k + 1], mark);
        assert forall j :: 0 <= j < k + 1 ==> Size(vs[j], mark).Ok?;
      }
    }
  }

  /** Two outcomes that agree on whether a byte count comes out, and on the
      count when it does. */
  predicate SameBytes(a: Outcome, b: Outcome) {
    a.Ok? == b.Ok? && (a.Ok? ==> a.bytes == b.bytes)
  }

  /** Taking a matching element out of two permutations of each other leaves
      permutations of each other. */
  lemma RemoveMatching(a: seq<Entry>, b: seq<Entry>, j: nat)
    requires multiset(a) == multiset(b) && a != [] && j < |b| && b[j] == a[0]
    ensures multiset(a[1..]) == multiset(b[..j] + b[j + 1..])
  {
    var m := multiset([a[0]]);
    var rest := multiset(b[..j] + b[j + 1..]);
    assert a == [a[0]] + a[1..];
    assert multiset(a) == m + multiset(a[1..]);
    assert b == b[..j] + [b[j]] + b[j + 1..];
    assert multiset(b) == multiset(b[..j]) + m + multiset(b[j + 1..]);
    assert rest == multiset(b[..j]) + multiset(b[j + 1..]);
    assert m + multiset(a[1..]) == m + rest;
    assert (m + multiset(a[1..])) - m == multiset(a[1..]);
    assert (m + rest) - m == rest;
  }

  /** Moving one sizing step past others changes neither whether a count comes
      out nor the count. */
  lemma PlusSwap(e: Outcome, p: Outcome, q: Outcome)
    ensures SameBytes(Plus(e, Plus(p, q)), Plus(Plus(p, Plus(e, Ok(0))), q))
  {
  }

  lemma {:induction false} EntriesOrderIrrelevant(a: seq<Entry>, b: seq<Entry>, mark: Mark)
    requires multiset(a) == multiset(b)
    ensures SameBytes(SizeEntries(a, mark), SizeEntries(b, mark))
    decreases |a|
  {
    if a == [] {
      assert |b| == |multiset(b)| == 0;
    } else {
      var x := a[0];
      assert x in multiset(b);
      var j :| 0 <= j < |b| && b[j] == x;
      var p, q := b[..j], b[j + 1..];
      assert b == (p + [x]) + q;
      RemoveMatching(a, b, j);
      EntriesOrderIrrelevant(a[1..], p + q, mark);
      SizeEntriesAppend(p, q, mark);
      SizeEntriesAppend(p + [x], q, mark);
      SizeEntriesAppend(p, [x], mark);
      PlusSwap(SizeEntry(x, mark), SizeEntries(p, mark), SizeEntries(q, mark));
    }
  }

  /** The bytes charged for a map do not depend on the order `MapKeys`
      returns its keys in; neither does whether it panics. */
  lemma MapOrderIrrelevant(t: nat, a: seq<Entry>, b: seq<Entry>, mark: Mark)
    requires multiset(a) == multiset(b)
    ensures Size(Map(t, MapOf(a)), mark).Ok? <==> Size(Map(t, MapOf(b)), mark).Ok?
    ensures Size(Map(t, MapOf(a)), mark).Ok? ==>
      Size(Map(t, MapOf(a)), mark).bytes == Size(Map(t, MapOf(b)), mark).bytes
  {
    EntriesOrderIrrelevant(a, b, IndexMark(mark));
  }

  /** A struct is charged its whole fixed size and then each field again, so a
      target reachable through two pointer fields is charged once per field. */
  lemma SharedTargetChargedPerPath(t: nat, p: nat, x: Value)
    requires Size(x, Clear).Ok?
    ensures Size(Struct(t, [Field(true, false, Ptr(p, Some(x))), Field(true, false, Ptr(p, Some(x)))]), Clear)
         == Ok(t + 2 * (p + Size(x, Clear).bytes))
  {
    var f := Field(true, false, Ptr(p, Some(x)));
    assert SizeField(f, Clear) == Ok(p + Size(x, Clear).bytes);
    assert SizeFields([f], Clear) == SizeField(f, Clear);
    assert SizeFields([f, f], Clear) == Plus(SizeField(f, Clear), SizeFields([f], Clear));
  }

  /** The read-only mark of an unexported field, plain or embedded, reaches
      through a pointer and a slice, and a non-nil interface behind it panics;
      the same field exported is sized normally. */
  lemma {:induction false} UnexportedInterfacePanics(t: nat, p: nat, s: nat, i: nat, x: Value, exported: bool, embedded: bool)
    requires Size(x, Clear).Ok?
    ensures var v := Struct(t, [Field(exported, embedded, Ptr(p, Some(Slice(s, 1, SliceOf([Iface(i, Some(x))])))))]);
      Size(v, Clear) == if exported then Ok(t + p + s + i + Size(x, Clear).bytes) else Panicked(UnexportedInterface)
  {
    var inner := Slice(s, 1, SliceOf([Iface(i, Some(x))]));
    var f := Field(exported, embedded, Ptr(p, Some(inner)));
    var m := FieldMark(Clear, f);
    assert SizeSeq([Iface(i, Some(x))], IndexMark(m)) == Size(Iface(i, Some(x)), IndexMark(m));
    assert Size(inner, m) == Plus(Ok(s), Size(Iface(i, Some(x)), IndexMark(m)));
    assert Size(Ptr(p, Some(inner)), m) == Plus(Ok(p), Size(inner, m));
    assert SizeFields([f], Clear) == SizeField(f, Clear);
    assert SizeField(f, Clear) == Size(Ptr(p, Some(inner)), m);
  }

  /** The exported fields of an embedded unexported struct stay readable:
      the next `Field` drops the embedded mark, whether the struct is embedded
      by value or through a pointer. The same struct in a plain unexported
      field marks them for good, and an interface among them panics. */
  lemma {:induction false} EmbeddedFieldsStayReadable(t: nat, p: nat, u: nat, i: nat, x: Value, embedded: bool)
    requires Size(x, Clear).Ok?
    ensures var inner := Struct(u, [Field(true, false, Iface(i, Some(x)))]);
      Size(Struct(t, [Field(false, embedded, inner)]), Clear)
        == if embedded then Ok(t + u + i + Size(x, Clear).bytes) else Panicked(UnexportedInterface)
    ensures var inner := Struct(u, [Field(true, false, Iface(i, Some(x)))]);
      Size(Struct(t, [Field(false, embedded, Ptr(p, Some(inner)))]), Clear)
        == if embedded then Ok(t + p + u + i + Size(x, Clear).bytes) else Panicked(UnexportedInterface)
  {
    var g := Field(true, false, Iface(i, Some(x)));
    var inner := Struct(u, [g]);
    var m := if embedded then EmbedRO else StickyRO;
    var k := if embedded then Clear else StickyRO;
    assert Size(Iface(i, Some(x)), k) == if embedded then Plus(Ok(i), Size(x, Clear)) else Panicked(UnexportedInterface);
    assert SizeFields([g], m) == SizeField(g, m);
    assert SizeField(g, m) == Size(Iface(i, Some(x)), k);
    assert Size(inner, m) == Plus(Ok(u), SizeFields([g], m));
    var f1, f2 := Field(false, embedded, inner), Field(false, embedded, Ptr(p, Some(inner)));
    assert SizeFields([f1], Clear) == SizeField(f1, Clear);
    assert SizeField(f1, Clear) == Size(inner, m);
    assert Size(Ptr(p, Some(inner)), m) == Plus(Ok(p), Size(inner, m));
    assert SizeFields([f2], Clear) == SizeField(f2, Clear);
    assert SizeField(f2, Clear) == Size(Ptr(p, Some(inner)), m);
  }

  /** A non-nil map with a key that `MapIndex` cannot find again (a key not
      equal to itself, such as a NaN float) panics: `size` is handed the zero
      Value for it. */
  lemma UnmatchedKeyPanics(t: nat, es: seq<Entry>, j: nat, mark: Mark)
    requires j < |es| && es[j].elem.None?
    ensures Size(Map(t, MapOf(es)), mark).Panicked?
    ensures (forall k :: 0 <= k < j ==> SizeEntry(es[k], IndexMark(mark)).Ok?) && Size(es[j].key, IndexMark(mark)).Ok? ==>
      Size(Map(t, MapOf(es)), mark) == Panicked(InvalidValue)
  {
    var m := IndexMark(mark);
    assert !SizeEntry(es[j], m).Ok?;
    if (forall k :: 0 <= k < j ==> SizeEntry(es[k], m).Ok?) && Size(es[j].key, m).Ok? {
      assert SizeEntries(es[..j], m).Ok?;
      EntriesStep(es, j, m);
    }
  }

  // ---------------------------------------------------------------------------
  // The value built by memusage_test.go, with a 64-bit layout

  /** `U{A: "123456", B: []int64{3, 2, 1}}`: U is 40 bytes (a string header
      and a slice header), an int64 is 8. */
  function TestU(): (r: Value)
    ensures r.Struct? && r.typeSize == 40 && |r.fields| == 2
    ensures r.fields[0] == Field(true, false, Str(16, 6))
    ensures r.fields[1].exported && !r.fields[1].embedded && r.fields[1].value.Slice?
    ensures r.fields[1].value.backing == SliceOf([Other(8), Other(8), Other(8)])
  {
    Struct(40, [Field(true, false, Str(16, 6)),
                Field(true, false, Slice(24, 3, SliceOf([Other(8), Other(8), Other(8)])))])
  }

  /** `T{X: 3, Y: &U{...}}`: T is 16 bytes (an int and a pointer). */
  function TestT(): (r: Value)
    ensures r.Struct? && r.typeSize == 16 && |r.fields| == 2
    ensures r.fields[0] == Field(true, false, Other(8))
    ensures r.fields[1] == Field(true, false, Ptr(8, Some(TestU())))
  {
    Struct(16, [Field(true, false, Other(8)), Field(true, false, Ptr(8, Some(TestU())))])
  }

  /** The `U` value costs 110 bytes: 40 for itself, 16 + 6 for the string and
      24 + 3 * 8 for the slice. */
  lemma TestUSize()
    ensures Size(TestU(), Clear) == Ok(110)
  {
    var n := Other(8);
    var b := Slice(24, 3, SliceOf([n, n, n]));
    assert SizeSeq([n], Clear) == Ok(8);
    assert SizeSeq([n, n], Clear) == Plus(Size(n, Clear), SizeSeq([n], Clear));
    assert SizeSeq([n, n, n], Clear) == Plus(Size(n, Clear), SizeSeq([n, n], Clear));
    assert Size(b, Clear) == Ok(48);
    var fa, fb := Field(true, false, Str(16, 6)), Field(true, false, b);
    assert SizeFields([fb], Clear) == Ok(48);
    assert SizeFields([fa, fb], Clear) == Plus(SizeField(fa, Clear), SizeFields([fb], Clear));
  }

  /** `Bytes` charges 142 bytes for the test's `T` value and 150 for `&obj`
      (the test's 56 is for a profiler that is not part of memusage.go). The
      footprint counted once would be 86: every struct's fields are charged in
      the struct's fixed size and again one by one. */
  lemma TestValueSize()
    ensures Bytes(Some(TestT())) == Ok(142)
    ensures Bytes(Some(Ptr(8, Some(TestT())))) == Ok(150)
  {
    TestUSize();
    var y := Ptr(8, Some(TestU()));
    assert Size(y, Clear) == Plus(Ok(8), Size(TestU(), Clear));
    var fx, fy := Field(true, false, Other(8)), Field(true, false, y);
    assert SizeFields([fy], Clear) == Plus(SizeField(fy, Clear), SizeFields([], Clear));
    assert SizeFields([fx, fy], Clear) == Plus(SizeField(fx, Clear), SizeFields([fy], Clear));
    assert Size(TestT(), Clear) == Plus(Ok(16), SizeFields([fx, fy], Clear));
    assert Size(Ptr(8, Some(TestT())), Clear) == Plus(Ok(8), Size(TestT(), Clear));
  }
}
