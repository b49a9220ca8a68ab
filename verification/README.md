# Dragodis IDA stack-frame adapter, modelled in Dafny

Dragodis wraps the stack frame of a disassembled function as an ordered collection of
stack variables. Callers can index it by a user-facing offset or by a name, delete from
it, iterate over it, take its length and compare two frames. The IDA backend has two
adapters for this. `IDAStackFrame` uses the struct API, where the frame is a `struc_t`.
`IDA9StackFrame` uses the type-information API, where the frame is a `tinfo_t`. This
project models the logic both adapters add on top of the IDA calls and proves properties
about it.

- `NativeFrame` (`native_frame.dfy`) is the engine side. A frame is an ordered list of
  members, each a name and a native offset. `Frame.Struc(id, …)` and `Frame.Tinfo(tid, …)`
  are the two variants, and the constructor is the variant tag. IDA's lookup and
  deletion calls are pure functions on the member list. The struct API reports a miss
  with a falsy member. The type-information API reports a status that is either an index
  or -1.
- `Stack` (`stack.dfy`) is the adapter. `StackFrame` holds the wrapped frame plus the base
  offset and return-address size cached at construction. `Get`, `Delete`, `Iterate`,
  `Length` and `Equals` model `__getitem__`, `__delitem__`, `__iter__`, `__len__` and
  `__eq__`. A key is an `int`, a `bool` (Python's `bool` passes `isinstance(key, int)`), a
  `str`, or another type. Raised exceptions are the `Error` half of a `Result`.
- `StackProperties` (`stack_properties.dfy`) holds lemmas that relate the operations:
  - length against iteration;
  - lookup against iteration;
  - delete, then look up;
  - the two variants against each other;
  - equality;
  - the concrete scenarios.
- `Wrappers` (`wrappers.dfy`) holds `Option` and `Result`.

Two behaviours of the code that are easy to miss. The model keeps both:
- Iteration drops members named `" s"` and `" r"` whatever the return size. `__len__`
  subtracts one for `" r"` only when the return size is non-zero (`Stack.Iterate`,
  `Stack.ViewsCount`, `Stack.Length`, `StackProperties.LengthMatchesIteration`).
- A name lookup does not filter. `frame[" s"]` returns the saved-registers member when it
  exists (`StackProperties.GetReturnsSyntheticByName`).

The type-information variant's deletion at `dragodis/ida/stack.py:92` is modelled twice.
`Stack.DeleteAsWritten` passes the located index as both ends of `del_udms`, as the code
does. `Stack.Delete` uses the corrected call, `del_udms(index, index + 1)`, and the
deletion properties are stated about it (see "## Findings").

## Model

| member | source | states |
|---|---|---|
| NativeFrame.Identity | dragodis/ida/stack.py:26 | The identity token: `frame.id` for the struct API, `get_tid()` for the type-information API (line 75). No ensures of its own; `Stack.Equals`, `StackProperties.DeleteKeepsEquality` and `StackProperties.ConstructSameFrameEqual` state what it means. |
| NativeFrame.Find | dragodis/ida/stack.py:31-34 | Locates the first member at the exact native offset or with the exact name. It answers "none" exactly when no member matches. |
| NativeFrame.StrucLookup | dragodis/ida/stack.py:31-37 | `get_member` / `get_member_by_name` give a falsy answer exactly when no member matches. Otherwise they give the first matching member. |
| NativeFrame.UdmLookup | dragodis/ida/stack.py:80-83 | The type-information lookup status is -1 exactly when no member matches. Otherwise it is the index of the first matching member. |
| NativeFrame.DelStrucMember | dragodis/ida/stack.py:43 | `del_struc_member` removes the first member at that offset. The members before it keep their positions, and those after it move down by one, in order. A frame with no member at that offset is unchanged. |
| NativeFrame.DelUdms | dragodis/ida/stack.py:92 | `del_udms(idx1, idx2)` removes the members in the half-open index range. All members before it and after it keep their order. |
| Stack.Construct | dragodis/ida/stack.py:15-23 | The adapter wraps the given frame. From then on, an integer key k searches k + the function's return-address offset. The length drops one more when the function's return size is non-zero. Variant B's constructor (lines 64-72) is the same. |
| Stack.KeyQuery | dragodis/ida/stack.py:29-36 | A key yields a search exactly when it is an `int`, `bool` or `str`; any other type raises TypeError naming it. An offset search comes only from an `int` or `bool` key, and undoing the base-offset shift recovers that key's integer value. A name search comes only from the `str` key of that exact name. |
| StackProperties.KeyQueryDeterminesKey | dragodis/ida/stack.py:29-33 | Two keys that give the same search are the same key, or are both integers of one value (`True` and 1, `False` and 0). |
| Stack.Equals | dragodis/ida/stack.py:25-26 | Adapters compare equal exactly when their frame identity tokens are equal. The `is` short-circuit never changes the answer. |
| Stack.Get | dragodis/ida/stack.py:28-39 | An int or bool key succeeds exactly when some member's native offset is key + base offset. A str key succeeds exactly when some member has that name. Any other key raises TypeError. A miss raises KeyError carrying the untranslated key. A hit returns the member at its native position. |
| Stack.Delete | dragodis/ida/stack.py:41-43 | Lookup errors propagate unchanged. On success the located member alone is removed: by offset in the struct variant (pinned to the located member when offsets are distinct), and by index through the corrected `del_udms(i, i + 1)` in the type-information variant, not line 92 as written. The base offset, return size, variant and identity are kept. |
| Stack.DeleteAsWritten | dragodis/ida/stack.py:90-92 | Delete as the code writes it. Lookup errors propagate, and the struct variant behaves like `Delete`. |
| Stack.Views | dragodis/ida/stack.py:46-50 | Iteration yields members in native order, each at its own position. No yielded member is named `" s"` or `" r"`. |
| Stack.ViewsComplete | dragodis/ida/stack.py:94-100 | Every member not named `" s"` or `" r"` is yielded by iteration. |
| Stack.ViewsCount | dragodis/ida/stack.py:48-50 | The iteration count is the member count less the number of `" s"` and `" r"` members, whatever the return size. |
| Stack.Iterate | dragodis/ida/stack.py:45-51 | Iteration lists every member not named `" s"` or `" r"` exactly once, in native order, and nothing else. Variant B (lines 94-100) is the same. |
| Stack.Length | dragodis/ida/stack.py:53-56 | The length plus 1 (plus 1 more when the return size is non-zero) equals the iteration count plus the number of `" s"` and `" r"` members. |
| StackProperties.LengthMatchesIteration | dragodis/ida/stack.py:102-105 | Length equals the iteration count if and only if the frame has exactly 1 + (return size non-zero) synthetic members. |
| StackProperties.LengthMatchesIterationOnTypicalFrame | dragodis/ida/stack.py:54-55 | With one `" s"` member, and an `" r"` member exactly when the return size is non-zero, length equals the iteration count. |
| StackProperties.GetByOffsetRoundTrip | dragodis/ida/stack.py:29-31 | When offsets are distinct, the member at native offset o is found by user key o - base offset, in both variants. |
| StackProperties.GetByNameRoundTrip | dragodis/ida/stack.py:32-34 | When names are distinct, a member is found by its own name with no offset translation. |
| StackProperties.IterateAgreesWithGet | dragodis/ida/stack.py:32-39 | When names are distinct, each iterated variable is exactly what a lookup by its name returns. |
| StackProperties.IterateAgreesWithGetByOffset | dragodis/ida/stack.py:29-31 | When offsets are distinct, each iterated variable is exactly what a lookup by its user-facing offset (native offset - base offset) returns. |
| StackProperties.GetReturnsSyntheticByName | dragodis/ida/stack.py:32-39 | Lookup by name does not filter. `" s"` is found when present. |
| StackProperties.VariantsAgree | dragodis/ida/stack.py:77-88 | Over the same members, the type-information variant returns the same lookup results (including errors), iteration and length as the struct variant. With distinct offsets, the corrected `Delete` also leaves the same members in both variants; line 92 as written does not (see `Stack.DeleteAsWritten`). |
| StackProperties.DeleteThenGetFails | dragodis/ida/stack.py:41-42 | In a well-formed frame, after a successful delete of a key, looking up that key raises KeyError naming it. |
| StackProperties.DeletePreservesWellFormed | dragodis/ida/stack.py:43 | Deletion keeps offsets and names distinct. |
| StackProperties.DeleteKeepsOtherMembers | dragodis/ida/stack.py:41-43 | After a deletion by the corrected `Delete` (with distinct offsets), the members before the removed one stay at their positions. The members after it move down by one, in order. |
| StackProperties.DeleteKeepsEquality | dragodis/ida/stack.py:74-75 | An adapter still equals its pre-deletion self, because identity does not depend on the members. |
| StackProperties.DeleteEachKeepsCache | dragodis/ida/stack.py:15-23 | The base offset, return size and identity cached at construction survive any run of deletions. They are never recomputed. |
| StackProperties.ConstructTranslatesOffsets | dragodis/ida/stack.py:64-72 | On a freshly built adapter, integer key k searches native offset k + the function's return-address offset. A miss reports k itself. |
| StackProperties.ConstructSameFrameEqual | dragodis/ida/stack.py:20-26 | Adapters built over frames with the same identity are equal, whatever the function's return offset and size. Frames with different identities are not equal. |
| StackProperties.ScenarioNoReturnSlot | dragodis/ida/stack.py:56 | Three members with `" s"` and no return address: length 2, and iteration yields the other two members. |
| StackProperties.ScenarioWithReturnSlot | dragodis/ida/stack.py:105 | Four members with `" s"`, `" r"` and a reserved return address: length 2. |
| StackProperties.ScenarioMissReportsUserKey | dragodis/ida/stack.py:37-38 | With base offset 8, key -4 searches native offset 4. The miss raises KeyError(-4). |
| StackProperties.BoolKeyIsOffsetOne | dragodis/ida/stack.py:29-30 | Key `True` is an integer offset: it searches base offset + 1, and a miss reports `True`. |
| StackProperties.DeleteAsWrittenKeepsMember | dragodis/ida/stack.py:92 | As written, a successful type-information delete returns the frame unchanged, and the key is still found. |
| StackProperties.DeleteAsWrittenCounterexample | dragodis/ida/stack.py:90-92 | Concrete frame: the as-written delete of `"var_4"` leaves it in place, while `Delete` removes it. |

## Left out

- The IDA calls that resolve the owning function (`get_func_by_frame`, `get_frame_func`,
  `get_func`, `frame_off_retaddr`, `get_frame_retsize`) are not modelled. Their answers
  enter as the `FuncInfo` parameter of `Construct`. A frame with no owning function,
  which would fail inside IDA, is not modelled.
- Stack variable views keep only the member (name, native offset) and its native index.
  Type, size and comment belong to the variable classes, which are not part of this model.
- Stack.Get: the type-information variant builds its variable from the `udm_t` alone
  (lines 88 and 96) and discards the lookup status. The `_member_index` that line 92
  deletes by is computed inside `IDA9StackVariable`, which is not part of this model. The
  model takes that index to be the lookup status for `Get` and the iteration position for
  `Iterate`. `Stack.Delete`, `StackProperties.DeleteThenGetFails`,
  `StackProperties.DeleteKeepsOtherMembers` and the deletion clause of
  `StackProperties.VariantsAgree` rest on that reading.
- NativeFrame.Find: matches a member's exact start offset. IDA's `get_member` also finds
  the member whose extent contains the offset, but member sizes are not modelled.
- Native offsets that fall below zero after translation are treated like any other
  missed offset. The behaviour of IDA's unsigned-offset binding for them is not modelled.
- Stack.Delete: the struct variant removes the first member at the located member's
  offset. The contract pins that down as removing the located member only when offsets
  are distinct, which is how IDA keeps frames. The return codes of `del_struc_member` and
  `del_udms` are ignored by the code and are not modelled.
- Stack.Equals: requires both adapters to be of the same variant, and the other operand
  to be an adapter. Comparing with an object that has no `_frame` attribute raises
  `AttributeError` at lines 26 and 75; that error path is not modelled. When the two
  adapters are of different variants, Python tries the subclass's reflected
  `IDA9StackFrame.__eq__` first, and that calls `get_tid()` on the struct API's
  `struc_t`. What IDA does with that call is not modelled. Object identity (`is`) is a
  boolean parameter, constrained to mean the two values are the same.
- The exception messages are reduced to their payload. `TypeError` carries the type
  name. `KeyError` carries the key as passed.
- `Length` models `__len__`, which can return a negative number for a frame with no
  members. Python's `len()` builtin would then raise `ValueError`; that builtin is not
  part of this model.
- Generator laziness, the lack of snapshotting during iteration, backend and version
  selection, and the `TYPE_CHECKING` imports are left out. Iteration is a filtered
  sequence.
- Bit versus byte offsets in the type-information API are not modelled. Both variants
  use one native offset.

## Findings

| source | as written | input that shows it | evidently intended | confidence | as-written member | corrected member |
|---|---|---|---|---|---|---|
| dragodis/ida/stack.py:92 | `del_udms(index, index)`. The IDA SDK documents the second argument of `tinfo_t.del_udms` as the index after the last member to delete, so this range is empty. | A type-information frame with members `var_4` and `" s"`: `del frame["var_4"]` returns normally and `frame["var_4"]` still finds it. | Remove the located member: `del_udms(index, index + 1)` (or `del_udm(index)`). | medium: not executed; rests on the SDK's documented half-open range for `del_udms`, which is not part of this model | StackProperties.DeleteAsWrittenKeepsMember | StackProperties.DeleteThenGetFails |
