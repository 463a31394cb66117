# go-objectgraph memusage: the size rule, in Dafny

This project models the memory estimator in the `memusage` package of
alexflint/go-objectgraph: `Bytes(obj)` and the recursive `size(v)` it calls.
It then proves what they charge for each kind of Go value.
`size` starts from the type's fixed size (`v.Type().Size()`) and adds the
following by kind:

- a non-nil pointer adds its target;
- a string adds its byte length;
- a non-nil slice adds elements `0 .. Len-1`;
- a non-nil map adds every key and every value;
- a struct adds every field;
- a non-nil interface adds the concrete value it holds.

There is no visited set, so shared targets are charged once per path.

Files:

- `reflect.dfy` (module `Reflect`) stands in for `reflect.Value`. It is a tree
  of nodes, and each node carries its kind, its fixed type size and what
  `Len`, `Elem`, `Index`, `MapKeys`/`MapIndex`, `Field` and `Interface` would
  return. `None` is Go's nil, and, for a map value, the zero Value that
  `MapIndex` returns when it finds nothing. Each struct field records whether
  it is exported and whether it is embedded. A `Mark` records reflect's
  read-only flags, which come from unexported fields:
  - `EmbedRO` comes from an unexported embedded field, and the next `Field`
    drops it;
  - `StickyRO` comes from any other unexported field and is never dropped;
  - `Index`, `MapKeys` and `MapIndex` turn any mark into `StickyRO`, and `Elem`
    keeps it.
- `memusage.dfy` (module `MemUsage`) has two layers:
  - `Size` and `Bytes` are the specification, in exact bytes. Go's panics are
    an `Outcome`: `Ok(bytes)` or `Panicked(reason)`. The panics are:
    - `Type()` on the zero Value, which `reflect.ValueOf(nil)` returns, and
      which `MapIndex` returns for a key that is not equal to itself, such as
      a NaN float;
    - `IsNil()` on an Array-kind value, which the shared Array/Slice case calls;
    - `Interface()` on a non-nil interface that carries a read-only mark.
  - `SizeU64`, `SliceU64`, `MapU64`, `StructU64`, `EntryU64` and `BytesU64` are
    the loop code. Each is proved equal to the specification reduced modulo
    2^64. Their `uint64` accumulator `sz` wraps on every `+=`.
- `memusage_properties.dfy` (module `MemUsageProperties`) proves the
  per-kind rules. It also proves the main theorem, which ties `Size` to an
  independent reference definition. `Walk` lists every call of `size`, and
  the theorem says that `Size` is the total of each visited node's own bytes,
  or a panic exactly when the walk meets a refused node.

The broader design of the repository describes a deduplicating walker,
slices charged by capacity, scalar-array shortcuts and skipping unexported
content. `memusage.go` has none of these, and the model follows `memusage.go`:

- There is no visited set.
- A slice is charged by `Len`. The model keeps the capacity in the value, and
  `SliceChargesElements` proves that it is ignored.
- An array panics.
- A non-nil interface that carries a read-only mark panics.

The test in `memusage_test.go` expects 56 bytes from a `NewProfile` that
`memusage.go` does not define. On the same value with a 64-bit layout, `Bytes`
gives 142 (`TestValueSize`).

## Model

| member | source | states |
|---|---|---|
| MemUsage.Size | memusage.go:16-48 | A byte count is never below the value's own type size. Kinds with no case, and nil pointers, slices, maps and interfaces, cost exactly their type size. A string costs its type size plus its length. An Array-kind value panics at `IsNil`. A non-nil interface carrying either read-only mark panics at `Interface()`. |
| MemUsage.SizeSeq | memusage.go:27-29 | The slice loop over no elements charges nothing. It gives a count iff every element gives one. |
| MemUsage.SizeFields | memusage.go:39-41 | The struct loop over no fields charges nothing. It gives a count iff every field gives one. |
| MemUsage.SizeField | memusage.go:40 | `v.Field(i)` of a struct with mark `m`: an exported field keeps only a sticky mark and loses an embedded one. An unexported embedded field is marked embedded-read-only unless `m` is sticky. Any other unexported field is marked sticky. |
| MemUsage.SizeEntries | memusage.go:33-36 | The map loop over no entries charges nothing. It gives a count iff every entry gives one. |
| MemUsage.SizeEntry | memusage.go:34-35 | One key and its value: a count iff the key's size is a count, `MapIndex` found a value, and that value's size is a count. The count is then the key's bytes plus the value's. A key panic is the entry's panic. A lookup that finds nothing after a good key panics on the zero Value. |
| MemUsage.Bytes | memusage.go:12-14 | A nil argument panics with an invalid Value. Otherwise the result is `size` of the dynamic value, with no read-only mark. |
| MemUsage.Plus | memusage.go:17-47 | Two sizing steps in sequence: the result is a count iff both are counts, and then the counts add up. Otherwise the first panic is the result. |
| MemUsage.SizeSeqAppend | memusage.go:27-29 | The slice loop over `a + b` is the loop over `a` followed by the loop over `b`. |
| MemUsage.SizeFieldsAppend | memusage.go:39-41 | The struct loop over `a + b` is the loop over `a` followed by the loop over `b`. |
| MemUsage.SizeEntriesAppend | memusage.go:33-36 | The map loop over `a + b` is the loop over `a` followed by the loop over `b`. |
| MemUsage.SeqStep | memusage.go:27-29 | One more slice iteration adds element `i`. A panic at element `i` after a clean prefix is the panic of the whole loop. |
| MemUsage.FieldsStep | memusage.go:39-41 | One more struct iteration adds field `i`. A panic in field `i` after a clean prefix is the panic of the whole loop. |
| MemUsage.EntriesStep | memusage.go:33-36 | One more map iteration adds key `i` and its value. A panic there after a clean prefix is the panic of the whole loop. |
| MemUsage.Wrap | memusage.go:17 | A number as a `uint64` holds it: below 2^64. |
| MemUsage.WrapIsMod | memusage.go:17 | Wrapping a number into `uint64` range is reduction modulo 2^64. |
| MemUsage.AddU64 | memusage.go:21 | `uint64` addition: the result is below 2^64 and is either the exact sum or the sum less 2^64. |
| MemUsage.ToU64 | memusage.go:16 | An exact outcome as a `uint64` holds it: panics are unchanged, and counts are below 2^64 and unchanged when they already fit. |
| MemUsage.Accumulate | memusage.go:21-44 | Wrapping after every `sz += x` ends where wrapping the exact sum once does. |
| MemUsage.SizeU64 | memusage.go:16-48 | The step-by-step `uint64` computation of `size` returns the specification's outcome: the same panic, or the exact byte count modulo 2^64. |
| MemUsage.SliceU64 | memusage.go:25-30 | The slice loop over indices `0 .. Len-1` returns the specification's outcome modulo 2^64 and stops at the first panicking element. |
| MemUsage.MapU64 | memusage.go:31-37 | The loop over `MapKeys` returns the specification's outcome modulo 2^64 and stops at the first panicking key or value. |
| MemUsage.EntryU64 | memusage.go:34-35 | Sizing one key and then its value returns that entry's outcome modulo 2^64, including the panic on the zero Value when the lookup finds nothing. |
| MemUsage.StructU64 | memusage.go:38-41 | The loop over the fields returns the specification's outcome modulo 2^64. Each field is sized with the mark `v.Field(i)` gives it, as `SizeField` states, so an embedded mark does not outlive the next `Field`. |
| MemUsage.BytesU64 | memusage.go:12-14 | `Bytes` as the program computes it equals the specification's `Bytes` modulo 2^64, and a nil argument panics. |
| MemUsageProperties.TotalAppend | memusage.go:17-47 | The bytes charged over two lists of calls add up. |
| MemUsageProperties.CleanAppend | memusage.go:17-44 | Two lists of calls together are free of refused calls iff each list is. |
| MemUsageProperties.AgreesPlus | memusage.go:17-47 | Running two steps in sequence matches walking their calls in sequence. |
| MemUsageProperties.SizeIsWalkTotal | memusage.go:16-48 | For every value and mark: `size` returns a count iff no call it makes is refused, meaning a call on the zero Value, an array, or a marked non-nil interface. The count is then the sum over all calls `size` makes of each node's type size plus, for strings, its length. A shared node is counted once per path. |
| MemUsageProperties.SeqIsWalkTotal | memusage.go:27-29 | The same agreement for the elements of a slice. |
| MemUsageProperties.FieldIsWalkTotal | memusage.go:40 | The same agreement for one struct field, with the mark `v.Field(i)` gives it. |
| MemUsageProperties.FieldsAreWalkTotal | memusage.go:39-41 | The same agreement for the fields of a struct. |
| MemUsageProperties.EntryIsWalkTotal | memusage.go:34-35 | The same agreement for one map key and its value, where a failed lookup is a call on the zero Value. |
| MemUsageProperties.EntriesAreWalkTotal | memusage.go:33-36 | The same agreement for the entries of a map. |
| MemUsageProperties.HandlesChargeTarget | memusage.go:12-22 | `Bytes(nil)` panics. The interface box `Bytes` receives is not charged: the same value in an interface slot costs the slot's size more. A non-nil pointer costs its size plus the whole of its target, and panics iff its target does. |
| MemUsageProperties.SliceChargesElements | memusage.go:25-29 | A slice's element loop gives a count iff every element does. A panic is that of the first panicking element. The capacity never changes the outcome. |
| MemUsageProperties.RemoveMatching | memusage.go:33 | Taking a matching entry out of two permutations of each other leaves permutations of each other. |
| MemUsageProperties.PlusSwap | memusage.go:33-36 | Moving one step past others changes neither whether a count comes out nor the count. |
| MemUsageProperties.EntriesOrderIrrelevant | memusage.go:33-36 | Two orders of the same entries give the same count, or both panic. |
| MemUsageProperties.MapOrderIrrelevant | memusage.go:31-36 | A map's outcome does not depend on the order `MapKeys` returns its keys in: whether it panics and its byte count are the same for every permutation. |
| MemUsageProperties.SharedTargetChargedPerPath | memusage.go:19-41 | A struct of two pointers to the same target costs its own size plus each pointer and the target twice, because there is no visited set. |
| MemUsageProperties.UnexportedInterfacePanics | memusage.go:38-45 | An interface behind a pointer and a slice, reached through a struct field, panics iff that field is unexported, embedded or not, because `Index` makes the mark sticky. Otherwise it is charged normally. |
| MemUsageProperties.EmbeddedFieldsStayReadable | memusage.go:19-45 | An exported interface field of a struct in an unexported field is charged normally iff that field is embedded, whether the struct is held by value or through a pointer. In a plain unexported field it panics. |
| MemUsageProperties.UnmatchedKeyPanics | memusage.go:31-36 | A non-nil map with an entry whose lookup finds nothing panics. If every earlier entry and that entry's key give counts, it panics on the zero Value. |
| MemUsageProperties.TestU | memusage_test.go:16-19 | The test's `U` is a 40-byte struct: an exported 16-byte string header holding six bytes, then an exported slice of three 8-byte integers. |
| MemUsageProperties.TestT | memusage_test.go:11-14 | The test's `T` is a 16-byte struct: an exported 8-byte int, then an exported 8-byte pointer to `U`. |
| MemUsageProperties.TestUSize | memusage_test.go:16-19 | The test's `U` value costs 110 bytes with a 64-bit layout. |
| MemUsageProperties.TestValueSize | memusage_test.go:11-28 | The test's `T` value costs 142 bytes and `&obj` 150, with a 64-bit layout. |

## Left out

- `reflect` itself is abstracted into the `Value` tree. Kinds, type sizes,
  lengths, the values of `Elem`, `Index`, `Field`, `MapKeys`/`MapIndex` and
  `Interface`, and field exportedness and embedding are inputs. The model
  keeps reflect's two read-only flags as `Mark`, with their rules for
  `Field`, `Elem`, `Index`, `MapKeys`, `MapIndex` and `Interface`.
- Whether a map key is equal to itself is an input: an entry whose value is
  `None` stands for a key that `MapIndex` cannot find again.
- The layout constants at memusage.go:6-8 are unused by `size`. Every node's
  type size is an input instead.
- Cyclic and shared object graphs: a Dafny datatype is a finite tree. The Go
  code recurses forever on a cycle, and the model has no cycles. Sharing is
  represented by repeating the same subtree, which costs the same as Go's
  per-path charging.
- An interface's held value is meant to be a concrete, non-interface value.
  The datatype does not enforce this.
- MapOrderIrrelevant: only whether a count comes out and the count are
  order-independent. When several entries panic, which panic is raised can
  depend on key order.
- Size: the count is exact and unbounded. The `uint64` wrap-around is modelled
  by the loop methods `SizeU64`, `SliceU64`, `MapU64`, `EntryU64`, `StructU64`
  and `BytesU64`, which are proved equal to it modulo 2^64.
- EntryU64: it adds a key's size and its value's size together and then adds
  that sum to `sz`. The source adds them to `sz` one after the other. The two
  agree modulo 2^64, and the panics are the same.
- Go's stack overflow on very deep graphs is left out.
- `NewProfile`, `Profile`, `sizeByType`, `TotalBytes` and the deduplicating
  walker, which memusage_test.go:29-33 uses, are not part of this model:
  `memusage.go` does not define them.
- The test's logging and its `go-humanize` formatting (memusage_test.go:30-32)
  are left out.
