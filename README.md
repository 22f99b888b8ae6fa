# Verified model of the suibase daemon's slab registry and version stamp

This project models two leaf components of the suibase daemon's state layer in Dafny and proves their
contracts.

- **`ManagedVec<T>`** (`basic_types/managed_vec.rs`, module `BasicTypes`, file `managed_vec.dfy`)
  is a small slab of optional cells with a `u8` live-element counter `some_len`. `push` puts an
  element in the lowest empty cell, or appends a cell when none is empty. It writes the chosen index
  into the element through the `ManagedElement` capability. `remove` empties a cell, clears the
  element's index and drops trailing empty cells. `get`/`get_mut` find nothing at an out-of-range or
  empty index. Iteration yields the live `(index, element)` pairs in ascending order.
  - The behaviour is stated over the cells (`Cells<T> = seq<Option<Managed<T>>>`) by the functions
    `FirstFree`, `Lookup`, `Pushed`, `Trimmed`, `Removed`, `Taken` and `Live`.
  - The class `ManagedVec` keeps `data` and `someLen` and updates them in place. Its `push` has the
    source's `for` loop with early return, and its `remove` has the `while` loop that pops trailing
    empty cells. Both are proved against those functions.
  - `Wf` is the invariant: at most 255 cells, no trailing empty cell, and every live element's
    `idx` equals its position. The class adds that `someLen` equals the number of occupied cells.
  - A stored element is `Managed<T>(idx, payload)`: the `idx` that `ManagedElement::idx`/`set_idx`
    read and write, plus the rest of the element. Rust moves elements into the vector, so value
    semantics is faithful.
  - Two client methods replay the unit test using only the class contracts. `LenScenario` (with
    `PushTwo`) covers the counting sequence. `RecycleScenario` (with `PushAll`) covers the
    push/remove/remove/push recycling check, for any number of values and any position among them;
    the test's own case is five values and each position from 0 to 4. Each method returns what the
    test reads, and its postcondition is what the test asserts.
- **`UuidST`** (`shared_types/uuid.rs`, module `SharedTypes`, file `uuid.dfy`) is the version stamp
  `(method_uuid, data_uuid)`. UUIDs are 16-byte sequences, and the order on them is lexicographic
  over the bytes, as Rust derives it for `Uuid`.
  - `increment` takes the clock's new value and a newly minted random UUID as parameters. The random
    UUID is used only when the new value is not above the stored one.
  - The derived `Ord` of `UuidST` is `StampLess`.
  - The text form is unpadded base32hex (section 7 of RFC 4648; section 3.2 allows dropping the
    padding). Module `Base32Hex` (file `base32hex.dfy`) implements it directly over bits: the bytes
    become one bit string, most significant bit first, with zero bits added on the right to a
    multiple of five (section 6 of RFC 4648). Each 5-bit group becomes one character of
    `0-9A-V`.
  - The main theorem `EncodeOrder` says that for inputs of one length, the byte strings compare
    exactly as their encodings do. A UUID therefore encodes to 26 characters whose string order is
    the UUID order.
- `LexOrder` (file `lex_order.dfy`) holds the lexicographic order on `seq<nat>` and its lemmas
  (concatenation, trichotomy, transitivity). `Wrappers` holds `Option`.

Capacity: the source's counter is a `u8`, so `push` of a 256th live element overflows
`some_len += 1`. With overflow checks on, that is a panic. `ManagedVec.Push` reports this case with
the `None` that the source's return type already allows, and changes nothing. The overflow in a build
without overflow checks is recorded under Findings.

## Model

| member | source | states |
|---|---|---|
| `BasicTypes.Managed.SetIdx` | rust/suibase/crates/suibase-daemon/src/basic_types/managed_vec.rs:37-40 | writing the index changes the element's index and nothing else |
| `BasicTypes.CountSome` | rust/suibase/crates/suibase-daemon/src/basic_types/managed_vec.rs:32-35 | the number of occupied cells never exceeds the number of cells |
| `BasicTypes.FirstFree` | rust/suibase/crates/suibase-daemon/src/basic_types/managed_vec.rs:54-62 | the result is the lowest empty cell: every cell below it is occupied, and it is empty unless it equals the length |
| `BasicTypes.Lookup` | rust/suibase/crates/suibase-daemon/src/basic_types/managed_vec.rs:72-75 | an element is found exactly when the index is in range and the cell is occupied, and then it is that cell's element |
| `BasicTypes.Pushed` | rust/suibase/crates/suibase-daemon/src/basic_types/managed_vec.rs:52-69 | the cells after `push`: exactly one more occupied cell, and the number of cells grows exactly when no cell was empty |
| `BasicTypes.Trimmed` | rust/suibase/crates/suibase-daemon/src/basic_types/managed_vec.rs:92-95 | the result is a prefix with no trailing empty cell, and every dropped cell was empty |
| `BasicTypes.Removed` | rust/suibase/crates/suibase-daemon/src/basic_types/managed_vec.rs:88-101 | the cells after `remove`: one occupied cell fewer exactly when the index found an element, and never more cells than before |
| `BasicTypes.Taken` | rust/suibase/crates/suibase-daemon/src/basic_types/managed_vec.rs:90-100 | what `remove` returns: an element exactly when the index found one, and then that element's payload with its index cleared |
| `BasicTypes.Live` | rust/suibase/crates/suibase-daemon/src/basic_types/managed_vec.rs:111-134 | the pairs are exactly the occupied cells with their positions, in strictly ascending order, as many as the live count |
| `BasicTypes.CountSomeUpdate` | rust/suibase/crates/suibase-daemon/src/basic_types/managed_vec.rs:53 | filling an empty cell adds one to the count and emptying an occupied one takes one away |
| `BasicTypes.CountSomeTrimmed` | rust/suibase/crates/suibase-daemon/src/basic_types/managed_vec.rs:92-95 | dropping trailing empty cells leaves the count unchanged |
| `BasicTypes.CountSomeFull` | rust/suibase/crates/suibase-daemon/src/basic_types/managed_vec.rs:64-68 | when no cell is empty, the count is the length, which is why an append keeps the index in range |
| `BasicTypes.CountSomeZero` | rust/suibase/crates/suibase-daemon/src/basic_types/managed_vec.rs:107-109 | the count is zero exactly when every cell is empty |
| `BasicTypes.PushPreservesWf` | rust/suibase/crates/suibase-daemon/src/basic_types/managed_vec.rs:52-69 | below capacity, `push` keeps every invariant and adds exactly one live element |
| `BasicTypes.PushPlacesLowest` | rust/suibase/crates/suibase-daemon/src/basic_types/managed_vec.rs:55-68 | `push` stores the value at the lowest empty index, or appends it and grows by exactly one; the stored element reports that index; every other cell is unchanged |
| `BasicTypes.RemovePreservesWf` | rust/suibase/crates/suibase-daemon/src/basic_types/managed_vec.rs:88-101 | `remove` keeps every invariant; the count drops by one exactly when an element was taken |
| `BasicTypes.RemoveEmptiesOnly` | rust/suibase/crates/suibase-daemon/src/basic_types/managed_vec.rs:88-101 | after `remove(i)`, nothing is found at `i`; every other index finds what it found before; an empty or out-of-range `i` changes nothing |
| `BasicTypes.RemoveThenPushRecycles` | rust/suibase/crates/suibase-daemon/src/basic_types/managed_vec.rs:184-210 | when no lower cell is empty, the next `push` after `remove(i)` gets `i` back |
| `BasicTypes.PushOnFullAppends` | rust/suibase/crates/suibase-daemon/src/basic_types/managed_vec.rs:64-68 | with every cell occupied, `push` appends one cell holding the value with the next index |
| `BasicTypes.RemoveTwiceThenPush` | rust/suibase/crates/suibase-daemon/src/basic_types/managed_vec.rs:190-209 | remove at an occupied index with no empty cell below it returns the element without its index; removing there again finds nothing and changes nothing; the count drops by one; the next `push` gets the index back |
| `BasicTypes.WrappingIncrement` | rust/suibase/crates/suibase-daemon/src/basic_types/managed_vec.rs:53 | the unchecked `u8` increment adds one below 255 and wraps 255 to 0 |
| `BasicTypes.UncheckedPushLosesCount` | rust/suibase/crates/suibase-daemon/src/basic_types/managed_vec.rs:53 | from 255 occupied cells, an unchecked `push` leaves 256 live elements while the counter reads 0 |
| `BasicTypes.ManagedVec.constructor` | rust/suibase/crates/suibase-daemon/src/basic_types/managed_vec.rs:43-48 | a new registry has no cells and a zero count, and satisfies the invariant |
| `BasicTypes.ManagedVec.Push` | rust/suibase/crates/suibase-daemon/src/basic_types/managed_vec.rs:52-69 | below capacity, it returns the lowest free index, the cells become `Pushed`, the count grows by one, and `get` of the returned index yields the element carrying that index; at 255 live elements it returns `None` and changes nothing |
| `BasicTypes.ManagedVec.Get` | rust/suibase/crates/suibase-daemon/src/basic_types/managed_vec.rs:72-75 | the result is that cell's element (`Lookup` of the cells): found exactly for an in-range occupied index, and the element found reports that index |
| `BasicTypes.ManagedVec.GetMut` | rust/suibase/crates/suibase-daemon/src/basic_types/managed_vec.rs:78-82 | for an out-of-range or empty index it finds nothing and changes nothing; otherwise the caller's write reaches only that element's payload |
| `BasicTypes.ManagedVec.Remove` | rust/suibase/crates/suibase-daemon/src/basic_types/managed_vec.rs:88-101 | the cells become `Removed` with no trailing empty cell; it returns the taken element with its index cleared and the count drops by one; otherwise it returns `None` and leaves the cells and count alone; afterwards `get(index)` finds nothing |
| `BasicTypes.ManagedVec.Len` | rust/suibase/crates/suibase-daemon/src/basic_types/managed_vec.rs:103-105 | the counter equals the number of occupied cells and the number of iterated pairs |
| `BasicTypes.ManagedVec.IsEmpty` | rust/suibase/crates/suibase-daemon/src/basic_types/managed_vec.rs:107-109 | true exactly when every cell is empty, which under the invariant means there are no cells |
| `BasicTypes.ManagedVec.Iter` | rust/suibase/crates/suibase-daemon/src/basic_types/managed_vec.rs:119-124 | yields `len()` pairs in strictly ascending index order; each element reports its own index and is what `get` finds there; every live element appears |
| `BasicTypes.LenScenario` | rust/suibase/crates/suibase-daemon/src/basic_types/managed_vec.rs:169-181 | from `new`, push, push, remove(0), remove(0), remove(1): `len()` reads 0, 1, 2, 1, 1, 0 |
| `BasicTypes.PushTwo` | rust/suibase/crates/suibase-daemon/src/basic_types/managed_vec.rs:170-175 | from `new`, two pushes: the values sit in cells 0 and 1 carrying those indices, and `len()` reads 0, 1, 2 |
| `BasicTypes.RecycleScenario` | rust/suibase/crates/suibase-daemon/src/basic_types/managed_vec.rs:183-210 | after pushing n values (n at most 255) and for any i < n: `remove(i)` returns value i with its index cleared, a second `remove(i)` returns nothing, the next `push` returns i, and `len()` reads n, n-1, n-1, n |
| `BasicTypes.PushAll` | rust/suibase/crates/suibase-daemon/src/basic_types/managed_vec.rs:185-189 | after pushing n values into a new registry, value k sits in cell k carrying index k, and `len()` is n |
| `Base32Hex.Encode` | rust/suibase/crates/suibase-daemon/src/shared_types/uuid.rs:54 | unpadded base32hex of n bytes has ceil(8n/5) characters, all from `0-9A-V` |
| `Base32Hex.AlphabetTable` | rust/suibase/crates/suibase-daemon/src/shared_types/uuid.rs:52-54 | the value-to-character map is the alphabet table of section 7 of RFC 4648 |
| `Base32Hex.BitsOrder` | rust/suibase/crates/suibase-daemon/src/shared_types/uuid.rs:52-53 | for bit strings of one length, lexicographic order is numeric order, and equality is equality of values |
| `Base32Hex.EncodeOrder` | rust/suibase/crates/suibase-daemon/src/shared_types/uuid.rs:52-54 | for inputs of one length, `a < b` bytewise exactly when `encode(a) < encode(b)` as strings |
| `Base32Hex.EncodeInjective` | rust/suibase/crates/suibase-daemon/src/shared_types/uuid.rs:52-54 | inputs of one length with the same encoding are equal |
| `SharedTypes.ShortUuidString` | rust/suibase/crates/suibase-daemon/src/shared_types/uuid.rs:51-55 | a UUID's text form has 26 characters from `0-9A-V` |
| `SharedTypes.UuidLess` | rust/suibase/crates/suibase-daemon/src/shared_types/uuid.rs:37 | the order of `Uuid` is the numeric order of the 128-bit values |
| `SharedTypes.ShortUuidOrder` | rust/suibase/crates/suibase-daemon/src/shared_types/uuid.rs:52-53 | the text form is strictly order-preserving: `u < v` exactly when `text(u) < text(v)` |
| `SharedTypes.ShortUuidInjective` | rust/suibase/crates/suibase-daemon/src/shared_types/uuid.rs:155-156 | equal UUIDs give equal strings and distinct UUIDs give distinct strings |
| `SharedTypes.StampLess` | rust/suibase/crates/suibase-daemon/src/shared_types/uuid.rs:11-15 | the derived `Ord`: comparing `method_uuid` first and `data_uuid` on a tie is the byte order of the two UUIDs laid end to end |
| `SharedTypes.StampTotal` | rust/suibase/crates/suibase-daemon/src/shared_types/uuid.rs:11-15 | the derived order is irreflexive, asymmetric and total |
| `SharedTypes.StampTransitive` | rust/suibase/crates/suibase-daemon/src/shared_types/uuid.rs:11-15 | the derived order is transitive |
| `SharedTypes.Incremented` | rust/suibase/crates/suibase-daemon/src/shared_types/uuid.rs:34-41 | the stamp after `increment`: `data_uuid` is the new value; `method_uuid` is kept when the new value is above the old one, and is the minted UUID otherwise |
| `SharedTypes.IncrementRun` | rust/suibase/crates/suibase-daemon/src/shared_types/uuid.rs:78-80 | one stamp per increment, and the data UUID of the i-th is the i-th clock value |
| `SharedTypes.IncrementAdvances` | rust/suibase/crates/suibase-daemon/src/shared_types/uuid.rs:34-41 | when the new value is above the old `data_uuid`, `method_uuid` is kept, the stamp grows under the derived order, and the data UUID's text grows |
| `SharedTypes.IncrementResyncs` | rust/suibase/crates/suibase-daemon/src/shared_types/uuid.rs:37-40 | when the new value is not above the old one, the stamp becomes (newly minted UUID, new value), and it is above the old stamp exactly when the minted UUID is above the old `method_uuid` |
| `SharedTypes.RunKeepsMethod` | rust/suibase/crates/suibase-daemon/src/shared_types/uuid.rs:78-82 | with an advancing clock, the stamp after the i-th increment keeps the initial `method_uuid` |
| `SharedTypes.MonotoneRun` | rust/suibase/crates/suibase-daemon/src/shared_types/uuid.rs:78-89 | over a series of increments with an advancing clock, every stamp keeps the initial `method_uuid`, each stamp is above the one before it, and each data UUID's text is above the previous one |
| `SharedTypes.DataUuidStringsOrdered` | rust/suibase/crates/suibase-daemon/src/shared_types/uuid.rs:85 | two stamps' `get_data_uuid` strings compare as their data UUIDs do |
| `SharedTypes.UuidST.constructor` | rust/suibase/crates/suibase-daemon/src/shared_types/uuid.rs:18-23 | both fields are the given newly generated values |
| `SharedTypes.UuidST.Get` | rust/suibase/crates/suibase-daemon/src/shared_types/uuid.rs:25-27 | returns the two fields; as a function it changes nothing |
| `SharedTypes.UuidST.Set` | rust/suibase/crates/suibase-daemon/src/shared_types/uuid.rs:29-32 | afterwards the stamp equals the other's previous value, also when the other is the same object, and the other is unchanged |
| `SharedTypes.UuidST.Increment` | rust/suibase/crates/suibase-daemon/src/shared_types/uuid.rs:34-41 | `data_uuid` becomes the new value in every case; `method_uuid` is kept when the new value is above the old one and replaced by the minted UUID otherwise |
| `SharedTypes.UuidST.GetMethodUuid` | rust/suibase/crates/suibase-daemon/src/shared_types/uuid.rs:43-45 | exactly the text form of the method UUID: 26 characters of the alphabet |
| `SharedTypes.UuidST.GetDataUuid` | rust/suibase/crates/suibase-daemon/src/shared_types/uuid.rs:47-49 | exactly the text form of the data UUID: 26 characters of the alphabet (its order is `DataUuidStringsOrdered`) |

## Left out

- UUID generation (`Uuid::new_v4`, `uuid7::new_v7`) depends on randomness and the clock. The generated values are parameters of the constructor and of `Increment`. The version and variant bits of sections 5.4 and 5.7 of RFC 9562 are not modelled.
- The `data_encoding` crate is not part of this model. Its `BASE32HEX_NOPAD.encode` is replaced by the RFC 4648 encoder of `Base32Hex`.
- The tokio `Mutex`/`Arc` wrapping and the two-thread test (uuid.rs lines 92-139) are concurrency. Only the sequential behaviour under the lock is modelled.
- `iter_mut` and `into_iter` yield the same pairs as `iter` and are modelled by the one function `ManagedVec.Iter`. Writes through `iter_mut`'s references and the consumption of the vector by `into_iter` are not modelled.
- BasicTypes.ManagedVec.GetMut: models one write through the returned reference, as a function applied to the element's payload. Keeping the reference, and writing the element's index through it (which the `ManagedElement` convention forbids), are not modelled.
- The `try_into().unwrap()` conversions of positions to `u8` cannot fail in the model: the invariant keeps every position below 255.
- `Default` for both types is `new`. `Debug` and `Clone` derives carry no behaviour.
- The conditional-read protocol and the RPC schema in `api/def_methods.rs` are not part of this model.

## Findings

| source | as written | input that shows it | evidently intended | confidence | as-written member | corrected member |
|---|---|---|---|---|---|---|
| rust/suibase/crates/suibase-daemon/src/basic_types/managed_vec.rs:53 | `some_len += 1` on a `u8` wraps to 0 in a build without overflow checks (Rust's release default) | 255 elements pushed into cells 0..254, then one more `push`: 256 elements are stored, but `len()` returns 0 and `is_empty()` returns true | a capacity error reported to the caller, with the state unchanged | not executed | `BasicTypes.UncheckedPushLosesCount` | `BasicTypes.ManagedVec.Push` |
