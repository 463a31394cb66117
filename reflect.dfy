/** The part of Go's `reflect` package that `size` looks at, as a finite tree.

    A `reflect.Value` is a node carrying its kind, the fixed size of its type
    (`v.Type().Size()`), and whatever `Len`, `Elem`, `Index`, `MapKeys`/`MapIndex`,
    `NumField`/`Field` and `Interface` would hand back for that kind. `None`
    stands for Go's nil wherever `IsNil` can be asked, and for the zero Value
    where `MapIndex` returns one. */
module Reflect {

  datatype Option<+T> = None | Some(value: T)

  /** One reflected value. `typeSize` is the value's static type size in bytes. */
  datatype Value =
      /** Every kind `size` has no case for: bool, the integer and float kinds,
          complex numbers, chan, func and unsafe.Pointer. */
    | Other(typeSize: nat)
      /** A string; `len` is its length in bytes (`v.Len()`). */
    | Str(typeSize: nat, len: nat)
      /** A pointer; `elem` is its target (`v.Elem()`), `None` when nil. */
    | Ptr(typeSize: nat, elem: Option<Value>)
      /** A slice; `backing` is nil or holds elements 0 .. Len-1 (`v.Index(i)`).
          The capacity is part of the value but nothing reads it. */
    | Slice(typeSize: nat, cap: nat, backing: SliceData)
      /** A fixed-length array; an array is never nil. */
    | Array(typeSize: nat, items: seq<Value>)
      /** A map; `table` is nil or lists every key with what `MapIndex` returns
      for it. */
    | Map(typeSize: nat, table: MapData)
      /** A struct; `fields` in declaration order (`v.Field(i)`). */
    | Struct(typeSize: nat, fields: seq<Field>)
      /** An interface-typed slot (a field, element, key or pointer target of
          interface type); `dynamic` is the concrete value it holds, `None` when
          nil. The held value is concrete, so never itself of interface kind. */
    | Iface(typeSize: nat, dynamic: Option<Value>)

  /** The contents of a slice: nil, or its elements in index order. */
  datatype SliceData = NilSlice | SliceOf(elems: seq<Value>)

  /** The contents of a map: nil, or every key in the order `v.MapKeys()`
      returns them, each with what `v.MapIndex(key)` returns. */
  datatype MapData = NilMap | MapOf(entries: seq<Entry>)

  /** A struct field: whether its name is exported, whether it is embedded
      (declared by its type alone), and its value. */
  datatype Field = Field(exported: bool, embedded: bool, value: Value)

  /** A map key and what `v.MapIndex(key)` returns for it: the zero Value
      (`None`) when the lookup finds nothing, which happens for a key that is
      not equal to itself, such as a NaN float. */
  datatype Entry = Entry(key: Value, elem: Option<Value>)

  /** The read-only mark reflect keeps in a Value obtained through an
      unexported struct field. `EmbedRO` comes from an unexported embedded
      field and is dropped by the next `Field`; `StickyRO` comes from any other
      unexported field and is never dropped. A Value carrying both behaves as
      `StickyRO`. */
  datatype Mark = Clear | EmbedRO | StickyRO

  /** The mark `v.Index(i)`, `v.MapKeys()` and `v.MapIndex(k)` give their
      results: any read-only mark of `v` becomes sticky. */
  function IndexMark(m: Mark): Mark {
    if m == Clear then Clear else StickyRO
  }

  /** The mark `v.Field(i)` gives field `f`: the sticky mark of `v` is kept and
      its embedded mark dropped, and an unexported field adds the embedded
      mark when it is embedded and the sticky mark otherwise. */
  function FieldMark(m: Mark, f: Field): Mark {
    var kept := if m == StickyRO then StickyRO else Clear;
    if f.exported then kept
    else if f.embedded && kept == Clear then EmbedRO
    else StickyRO
  }

  /** The panics `reflect` raises on the paths `size` takes. */
  datatype Panic =
      /** `Type()` called on the zero Value, which `reflect.ValueOf(nil)` and a
          `MapIndex` that finds nothing return. */
    | InvalidValue
      /** `IsNil()` called on a Value of Array kind. */
    | IsNilOnArray
      /** `Interface()` called on a Value carrying a read-only mark. */
    | UnexportedInterface

  /** True when the value is a pointer, slice, map or interface for which
      `v.IsNil()` holds. */
  predicate IsNilHandle(v: Value) {
    || (v.Ptr? && v.elem.None?)
    || (v.Slice? && v.backing.NilSlice?)
    || (v.Map? && v.table.NilMap?)
    || (v.Iface? && v.dynamic.None?)
  }
}
