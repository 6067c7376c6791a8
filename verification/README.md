# gdbplotlib extraction core in Dafny

gdbplotlib lets a gdb user write an expression such as `v[2:10, ::-1]` and
get back, as a NumPy array, the data held by a C++ variable in the
debugged process. This project models the part that turns that text into
data:

- **data_extractor.py** splits the text into the variable expression and
  its slices and has gdb evaluate the variable. It then asks the type set
  for a handler.
- **type_set.py** keeps the registered handler classes. It returns an
  instance of the first class whose `can_handle` accepts the type.
- **type_handler.py** holds `extract_all`. It reads a container's shape and
  element type and takes one slice per dimension. It walks the selected
  indices (`gen_output`) and hands the remaining slices to the handler of
  the elements.
- **std_types.py** holds the built-in handlers: `std::vector`,
  `std::vector<bool>`, `std::array`, raw pointers, C arrays, and the
  scalars (double, float, complex, integral, bool).
- **util.py** holds `indices_1d` (the indices a slice selects in a
  dimension, known or unbounded), `indices`, `split_variable_and_slice`
  and `strip_non_alphanumeric`.

Each part is modelled as follows:

- The debugged process is a value. gdb types are the datatype `GdbType`.
  Values are a type plus a representation `Repr`. Memory is a map from
  element addresses to representations.
- gdb's expression evaluator is a pair of functions passed in (`Inferior`).
- Python exceptions are the `Error` cases of a `Result`.
- The handler classes are the datatype `HandlerKind`.
- The objects that the source updates in place are classes in the `Engine`
  module. `TypeSet` has a mutable handler list. `TypeHandler` instances
  carry the dtype that Integral stores.
- The engine's methods are proved equal to the functional specifications
  `Dispatch`, `ExtractAllSpec`, `GenOutputSpec` and `ExtractVarSpec`. The
  properties are proved about those functions.

## Model

| member | source | states |
|---|---|---|
| Text.Split | gdbplotlib/data_extractor.py:22 | `str.split` on one character: at least one piece, no piece holds the separator, and joining the pieces gives back the text |
| Text.SplitJoin | gdbplotlib/data_extractor.py:40 | splitting the join of separator-free pieces gives back those pieces, so the split is the unique separator-free decomposition |
| Text.RFind | gdbplotlib/util.py:36-37 | `str.rfind`: -1 exactly when the character is absent; otherwise the position of the last occurrence |
| Gdb.Spelling | gdbplotlib/std_types.py:16 | `str(gdb_type)`, which every `can_handle` tests: a named type is its name, a pointer is its target followed by ` *` (`*` after another pointer, so `int **`), an array its target followed by ` [n]`; its properties are stated by `Gdb.SpellingExtendsTarget` |
| Gdb.SpellingExtendsTarget | gdbplotlib/std_types.py:16 | a pointer or array type's spelling starts with its target's, and a pointer's ends in `*`; this is why the `startswith` tests also accept pointers to containers |
| Gdb.TemplateArgument | gdbplotlib/std_types.py:16 | `template_argument(k)` succeeds exactly on a template instance with more than k arguments and returns argument k; otherwise it raises an error naming the type and position |
| Gdb.Load | gdbplotlib/std_types.py:26 | dereferencing succeeds exactly on an address the process has mapped and gives what is stored there; otherwise it is a memory error at that address |
| Util.Padded | gdbplotlib/type_handler.py:85-89 | the given slices are kept as a prefix, full slices `:` are appended up to the rank, and a list already long enough is unchanged |
| Util.ClampBound | gdbplotlib/util.py:11 | one bound of `slice.indices`: the default when omitted; otherwise, with the bounds of either step direction, the given bound counted from the end when negative and clamped into them |
| Util.SliceIndices | gdbplotlib/util.py:11 | `slice.indices(length)`: fails exactly on a negative length or a zero step; the step is the given one or 1; an omitted start is 0 (length-1 for a negative step) and an omitted stop is length (-1); a given bound counts from the end when negative and is then clamped to [0, length] (to [-1, length-1] for a negative step) |
| Util.Range | gdbplotlib/util.py:13-17 | the generator loop `i = start; while in_range(i, stop, step): yield i; i += step`: every value lies between start and stop on the side of the step; empty exactly when start is out of range; it starts at start |
| Util.IndexRange | gdbplotlib/util.py:5-17 | what `indices_1d` yields: on a known length it fails exactly on a negative length or a zero step, and every index lies inside the dimension; on an unbounded dimension it fails only where the loop never ends (zero step, start > stop) |
| Util.Indices1D | gdbplotlib/util.py:5-17 | the while loop of `indices_1d`, consumed to the end, yields exactly `IndexRange` |
| Util.RangeAt | gdbplotlib/util.py:14-17 | the j-th yielded value is start + j*step |
| Util.RangeMonotone | gdbplotlib/util.py:13-17 | the values strictly increase for a positive step and strictly decrease for a negative one |
| Util.RangeCount | gdbplotlib/util.py:13-17 | n values are yielded exactly when (n-1)·\|step\| < distance ≤ n·\|step\| |
| Util.IndexRangeCount | gdbplotlib/util.py:5-17 | `indices_1d` yields max(0, ceil((stop-start)/step)) indices, as Python's `range` does, strictly monotone in the direction of the step |
| Util.UnitSliceSelectsOne | gdbplotlib/util.py:5-17 | the slice k:k+1 selects exactly [k] inside a known dimension, and on an unbounded one |
| Util.InBoundsSlice | gdbplotlib/util.py:5-17 | inside the bounds, a:b selects a, a+1, ..., b-1 |
| Util.ForwardSlice | gdbplotlib/util.py:5-17 | on a known length, a:b selects the clamped start, start+1, ..., up to the clamped stop (so `5:100` on length 10 selects 5..9, and a negative bound counts from the end) |
| Util.NegativeUnitSlice | gdbplotlib/util.py:11 | for -length ≤ k < -1, k:k+1 selects k+length; k = -1 gives the empty slice -1:0; and for k < -length both bounds clamp to 0, so the slice selects nothing instead of raising |
| Util.UnboundedOpenStop | gdbplotlib/util.py:6-9 | on an unbounded dimension an omitted stop is 0: a positive step from start ≥ 0 selects nothing, and step -1 counts down from start to 1 |
| Util.Prefixed | gdbplotlib/util.py:30-32 | the nested loop's tuples: \|outer\|·\|inner\| of them |
| Util.PrefixedMembers | gdbplotlib/util.py:30-32 | each tuple of the nested loop is an outer index followed by an inner tuple, as `(i, *j)` builds it |
| Util.PrefixedAt | gdbplotlib/util.py:30-32 | tuple q·\|inner\|+k is outer index q followed by inner tuple k: the row-major order of the nested loops |
| Util.SliceList.constructor | gdbplotlib/util.py:20 | the caller's list holds the given slices |
| Util.PadSlices | gdbplotlib/util.py:21-23 | the caller's list is extended in place with full slices `:` up to the rank, as `Padded` says |
| Util.Singletons | gdbplotlib/util.py:26-28 | with one dimension, each index `i` is yielded as the tuple `(i,)`, in order |
| Util.Indices | gdbplotlib/util.py:20-32 | `indices`, consumed to the end: pads the caller's list in place with full slices up to the rank, and yields the tuples of `MultiIndices` (outer dimension major; an inner error only once the outer dimension yields) |
| Util.MultiIndices | gdbplotlib/util.py:20-32 | everything `indices` yields, consumed to the end, or the error it raises: IndexError at rank 0, the one-dimension branch `(i,)`, and otherwise the nested loop over the first dimension and the tuples of the rest; its tuples, their count and their order are stated by `Util.MultiIndicesShape` and `Util.PrefixedAt` |
| Util.MultiIndicesShape | gdbplotlib/util.py:20-32 | every tuple `indices` yields has one index per dimension, index d being one that `indices_1d` selects in dimension d, and there are as many tuples as the product of the per-dimension counts |
| Util.SplitVariableAndSlice | gdbplotlib/util.py:35-42 | no slice text exactly when `[` or `]` is missing, and then the whole text is the variable; otherwise the variable is the text before the last `[`, and the slice text is what lies between it and the last `]` when that `]` comes later, and empty when it does not |
| Util.SplitVariableRoundTrip | gdbplotlib/util.py:35-42 | appending `[text]` to any expression is undone by the split, when the text holds no bracket |
| Util.SplitVariableReversedBrackets | gdbplotlib/util.py:42 | when the last `]` comes before the last `[`, the slice text is empty (`"a]b[c"` gives `("a]b", "")`) |
| Util.StripNonAlphanumeric | gdbplotlib/util.py:45-46 | only word characters remain |
| Util.StripSubsequence | gdbplotlib/util.py:45-46 | what remains is a subsequence of the input: characters are only removed, never added or reordered |
| Util.StripKeepsWords | gdbplotlib/util.py:45-46 | a string of word characters only is left unchanged |
| Util.StripIdempotent | gdbplotlib/util.py:45-46 | stripping twice is stripping once |
| Util.StripConcat | gdbplotlib/util.py:45-46 | stripping works piecewise over concatenation, so no word character is dropped |
| StdTypes.CanHandle | gdbplotlib/std_types.py:13-175 | the `can_handle` of every handler; it raises only for a vector handler on a type spelled `std::vector...`, and a scalar handler accepts only a named type |
| StdTypes.ShapeOf | gdbplotlib/std_types.py:18-90 | `shape`: one dimension for containers and none for scalars; the dimension is unbounded exactly for a pointer; pointers and scalars never fail |
| StdTypes.ContainedTypeOf | gdbplotlib/std_types.py:22-166 | `contained_type`: None exactly for the scalar handlers; otherwise the pointer or array target, or the first template argument |
| StdTypes.ElementRepr | gdbplotlib/std_types.py:25-96 | container `extract`: an empty index raises; a vector<bool> element is 0 or 1 |
| StdTypes.DtypeOf | gdbplotlib/std_types.py:153-165 | the dtype Integral chooses: unsigned exactly when the spelling contains "unsigned"; size 1, 2, 4 or 8 |
| StdTypes.ExtractScalar | gdbplotlib/std_types.py:104-178 | scalar `extract`: Integral without a stored dtype raises; the result is the integer with that dtype, or the bool `n != 0`; it succeeds on any scalar representation otherwise |
| StdTypes.VectorHandlersPartition | gdbplotlib/std_types.py:13-32 | the two vector handlers raise together (exactly on a `std::vector...` spelling that is not a template instance); otherwise exactly one of them accepts a `std::vector` |
| StdTypes.ScalarHandlersDisjoint | gdbplotlib/std_types.py:99-175 | no two scalar handlers accept the same type |
| StdTypes.IntegralDtypeIsLp64 | gdbplotlib/std_types.py:142-166 | Integral accepts exactly the types of an independent x86-64 Linux (LP64, plain `char` signed) table, and the dtype it picks for each is that table's size and signedness |
| StdTypes.IntegralSpellingsAreLp64Keys | gdbplotlib/std_types.py:145-148 | the accepted spellings are exactly the keys of the x86-64 table |
| StdTypes.Lp64Dtype | gdbplotlib/std_types.py:155-163 | the substring tests give the x86-64 dtype on every accepted spelling |
| StdTypes.StdVectorReadsBack | gdbplotlib/std_types.py:18-26 | StdVector's layout, read off its `shape`, `contained_type` and `extract` (it follows from their definitions): a vector laid out from `_M_start` has shape (n,) and element type T, and element i is the i-th stored element |
| StdTypes.PackWords | gdbplotlib/std_types.py:34-36 | libstdc++'s word packing of a vector<bool> uses ceil(n/64) words |
| StdTypes.WordBit | gdbplotlib/std_types.py:47 | `w & (1 << j)` picks out bit j of the packed word |
| StdTypes.PackedBit | gdbplotlib/std_types.py:44-47 | element i is bit i % 64 of word i // 64 |
| StdTypes.StdVectorBoolReadsBack | gdbplotlib/std_types.py:34-49 | a packed vector<bool> has shape (n,) and element i reads back as the i-th boolean |
| StdTypes.StdArrayReadsBack | gdbplotlib/std_types.py:57-65 | StdArray's layout, read off its definitions: `std::array<T, n>` has shape (n,) and element type T, and element i is the i-th member of `_M_elems` |
| StdTypes.ArrayReadsBack | gdbplotlib/std_types.py:88-96 | Array's layout, read off its definitions: a C array with range (0, n-1) has shape (n,), and element i is its i-th element |
| StdTypes.PointerReads | gdbplotlib/std_types.py:73-80 | Pointer's layout, read off its definitions: one unbounded dimension, and element i is the memory i elements past the address |
| TypeSets.Dispatch | gdbplotlib/type_set.py:12-17 | a handler is returned only if it is registered and accepts the type |
| TypeSets.DispatchFirstMatch | gdbplotlib/type_set.py:13-15 | the handler returned is the first accepting one, when all before it answer no |
| TypeSets.DispatchUnknown | gdbplotlib/type_set.py:17 | "cannot handle type" is raised exactly when every handler answers no |
| TypeSets.DispatchRaises | gdbplotlib/type_set.py:13-14 | any other error is the error of the first handler that raised, all before it having answered no |
| TypeSets.RegisterPreservesDispatch | gdbplotlib/type_set.py:9-10 | registering another handler changes only the types no earlier handler handled |
| TypeSets.VectorOrderIrrelevant | gdbplotlib/default.py:6-7 | the two vector handlers may be registered in either order |
| TypeSets.DefaultHandlersComplete | gdbplotlib/default.py:4-16 | every modelled handler is in the default set |
| TypeSets.DefaultDispatchIntegral | gdbplotlib/default.py:4-16 | the default set hands every integer type to Integral |
| TypeSets.DefaultDispatchVector | gdbplotlib/default.py:4-16 | the default set hands `std::vector<bool>` to StdVectorBool and any other `std::vector<T>` to StdVector |
| TypeSets.DefaultDispatchPointer | gdbplotlib/default.py:4-16 | a pointer to anything not spelled `std::vector...` or `std::array...` goes to Pointer |
| TypeSets.DefaultDispatchPointerToVector | gdbplotlib/std_types.py:16 | a pointer to a `std::vector` raises on `template_argument(0)`, because StdVector tests the spelling prefix of the pointer type |
| TypeSets.DefaultDispatchPointerToArray | gdbplotlib/std_types.py:55 | a pointer to a `std::array` goes to StdArray, for the same reason |
| TypeHandlers.StoredDtype | gdbplotlib/std_types.py:153-165 | the dtype `contained_type` leaves in the handler: one exactly for Integral, unsigned exactly when the spelling contains "unsigned", of size 1, 2, 4 or 8, and the x86-64 dtype on every type Integral accepts |
| TypeHandlers.ExtractAllSpec | gdbplotlib/type_handler.py:74-103 | `extract_all`: shape first, then contained type; a scalar ignores the slices and is extracted with the dtype its `contained_type` stored; a container looks up its element handler, pads its own slices and hands the rest down. What it selects is stated by `TypeHandlers.ContainerSelects` and `TypeHandlers.ContainerSucceeds`, its nesting by `TypeHandlers.ExtractAllDepth`, and the slices it ignores by `TypeHandlers.ExtraSlicesIgnored` |
| TypeHandlers.GenOutputSpec | gdbplotlib/type_handler.py:91-100 | the nested `gen_output`: one list level per remaining dimension over the indices `indices_1d` selects, and at the bottom the element at `index` extracted with the remaining slices; its entries are stated by `TypeHandlers.LevelSelects` and `TypeHandlers.LevelSucceeds`, its depth by `TypeHandlers.GenOutputDepth` |
| TypeHandlers.GenListSpec | gdbplotlib/type_handler.py:96-100 | one output per selected index |
| TypeHandlers.ExtractAllDepth | gdbplotlib/type_handler.py:74-103 | every scalar of an extraction sits at the nesting depth of the type, one list level per container on the way down |
| TypeHandlers.ElementsDepth | gdbplotlib/type_handler.py:83-84 | every element of the contained type extracts to the depth of that type |
| TypeHandlers.ContainerDepth | gdbplotlib/type_handler.py:83-102 | a container whose elements all extract to the depth of the contained type adds one list level on top |
| TypeHandlers.GenOutputDepth | gdbplotlib/type_handler.py:91-100 | when every element extracts to depth d, `gen_output` yields depth d plus one list level per remaining dimension |
| TypeHandlers.GenListDepth | gdbplotlib/type_handler.py:96-98 | under the same assumption, every entry of the loop has that depth |
| TypeHandlers.GenOutputRest | gdbplotlib/type_handler.py:91-94 | slices that select the same from every element select the same from the container |
| TypeHandlers.GenListRest | gdbplotlib/type_handler.py:97-98 | the same for the loop over one dimension |
| TypeHandlers.ContainerUnfold | gdbplotlib/type_handler.py:83-102 | a container's extraction is `gen_output` over its first slice (a full slice when there is none) and hands the other slices to its elements |
| TypeHandlers.ContainerRest | gdbplotlib/type_handler.py:85-94 | two slice lists that agree on the container's own dimension and select the same from every element extract the same |
| TypeHandlers.ExtraSlicesIgnored | gdbplotlib/type_handler.py:80-86 | slices beyond the depth of the type are ignored |
| TypeHandlers.TrailingFullSlice | gdbplotlib/type_handler.py:88-89 | a trailing full slice `:` changes nothing, since missing slices select everything |
| TypeHandlers.GenListSucceeds | gdbplotlib/type_handler.py:96-100 | the loop succeeds exactly when the output at each selected index does |
| TypeHandlers.GenListFails | gdbplotlib/type_handler.py:96-100 | a failing loop raises the error of the first selected index whose output fails, all earlier ones having succeeded |
| TypeHandlers.GenListEntries | gdbplotlib/type_handler.py:96-100 | a successful loop yields, in order, the output at each selected index |
| TypeHandlers.LevelSelects | gdbplotlib/type_handler.py:96-100 | a successful list level has one entry per selected index, entry j being the output at the j-th index |
| TypeHandlers.ContainerSelects | gdbplotlib/type_handler.py:74-103 | a successful container extraction is a list with one entry per index its first slice selects (every index when there is none), in slice order; entry j is the element at that index extracted with the remaining slices |
| TypeHandlers.ContainerSucceeds | gdbplotlib/type_handler.py:74-103 | conversely, the extraction succeeds when shape, element type, element handler and index range can be had, and every selected element extracts |
| TypeHandlers.LevelSucceeds | gdbplotlib/type_handler.py:91-100 | a list level succeeds when every selected element can be read and extracted |
| TypeHandlers.ScalarExtraction | gdbplotlib/type_handler.py:80-81 | a scalar handler ignores the slices and succeeds exactly on a scalar representation; Integral gives the integer with its chosen dtype, Bool gives `n != 0` |
| TypeHandlers.UnknownElementTypeFails | gdbplotlib/type_handler.py:83-84 | the element handler is looked up before any element is read, so an unhandled element type fails even when nothing is selected |
| Engine.TypeSet.constructor | gdbplotlib/type_set.py:6-7 | a new type set has no handlers |
| Engine.TypeSet.Register | gdbplotlib/type_set.py:9-10 | the handler is appended, and nothing else changes |
| Engine.TypeSet.GetHandler | gdbplotlib/type_set.py:12-17 | the loop returns a fresh instance, bound to this set, of the handler `Dispatch` chooses, or fails with `Dispatch`'s error |
| Engine.NewDefaultTypeSet | gdbplotlib/default.py:4-16 | the default type set holds the built-in handlers in registration order |
| Engine.TypeHandler.constructor | gdbplotlib/type_handler.py:27-28 | a handler instance of a class, bound to its type set, with no dtype stored |
| Engine.TypeHandler.ContainedType | gdbplotlib/std_types.py:153-166 | returns `ContainedTypeOf`; Integral also stores the dtype of the value, and other handlers store nothing |
| Engine.TypeHandler.ExtractAll | gdbplotlib/type_handler.py:74-103 | `extract_all` with its padding loop computes `ExtractAllSpec` over the type set's handlers; an Integral handler afterwards holds the dtype of the value, any other keeps its state |
| Engine.TypeHandler.GenOutput | gdbplotlib/type_handler.py:91-100 | `gen_output` with its list-building loop computes `GenOutputSpec`; the contained handler either keeps its dtype or, being Integral, holds the dtype of the element type |
| DataExtractor.EvalComponents | gdbplotlib/data_extractor.py:24-27 | succeeds exactly when gdb evaluates every non-empty component; empty components are absent; any failure is a syntax error naming the subslice |
| DataExtractor.ComponentValue | gdbplotlib/data_extractor.py:25 | `int(gdb.parse_and_eval(x)) if x else None`: an empty component is absent, any other is what gdb evaluates it to; `DataExtractor.ComponentReadsBack` states that a written-out bound reads back as itself |
| DataExtractor.ComponentReadsBack | gdbplotlib/data_extractor.py:25 | a bound written out in decimal (nothing when absent) is empty exactly when absent and evaluates back to itself |
| DataExtractor.ParseSubslice | gdbplotlib/data_extractor.py:21-36 | succeeds exactly on a non-empty text of 1 to 3 components that gdb can all evaluate (empty ones are absent); k gives k:k+1, a:b gives (a, b, None) and a:b:c gives (a, b, c) |
| DataExtractor.ParseAll | gdbplotlib/data_extractor.py:41 | one slice per dimension, each the parse of its text; a failure is the error of the first dimension that fails, all earlier ones having parsed |
| DataExtractor.ParseSlice | gdbplotlib/data_extractor.py:39-41 | one slice per comma-separated piece, at least one |
| DataExtractor.ParseVar | gdbplotlib/data_extractor.py:44-47 | the variable is the text before the last `[`; slices only where there is slice text |
| DataExtractor.ExtractVarSpec | gdbplotlib/data_extractor.py:50-61 | succeeds only if the text parses and gdb evaluates the variable |
| DataExtractor.ExtractVar | gdbplotlib/data_extractor.py:50-61 | `extract_var` on a type set object computes `ExtractVarSpec` over its handlers |
| DataExtractor.ExtractVarSteps | gdbplotlib/data_extractor.py:51-61 | extraction is parse, evaluate, dispatch, then `extract_all` with the parsed slices |
| DataExtractor.ParseSubsliceRoundTrip | gdbplotlib/data_extractor.py:21-36 | a slice written as `start:stop:step` parses back to itself |
| DataExtractor.ParsePairRoundTrip | gdbplotlib/data_extractor.py:21-32 | `a:b` written out, with an absent bound as nothing, parses back to the slice (a, b, None) |
| DataExtractor.ParseSliceRoundTrip | gdbplotlib/data_extractor.py:39-41 | a non-empty list of slices written out with commas parses back to itself |
| DataExtractor.ParseVarRoundTrip | gdbplotlib/data_extractor.py:44-47 | `var[slices]` parses back into the variable and its slices, whatever brackets the variable holds; `var[]` has no slices |
| DataExtractor.ParseVarPair | gdbplotlib/data_extractor.py:44-47 | `base[a:b]` parses into `base` and the single slice a:b |
| DataExtractor.NoBracketsNoSlices | gdbplotlib/data_extractor.py:44-47 | a variable without a bracket pair has no slices |
| DataExtractor.SingleIndex | gdbplotlib/data_extractor.py:29-30 | an index k parses to k:k+1, which selects k inside the bounds and k+length for -length ≤ k < -1; `x[-1]` selects nothing, and so does an index below -length (`x[-11]` on length 10 gives `[]`, not an error) |
| DataExtractor.EmptySubslice | gdbplotlib/data_extractor.py:25-30 | an empty subslice fails on `None + 1` |
| DataExtractor.SubsliceSyntaxErrors | gdbplotlib/data_extractor.py:24-36 | more than three components, or a component gdb cannot evaluate, is a syntax error naming the subslice |
| DataExtractor.UnknownVariable | gdbplotlib/data_extractor.py:53-56 | a variable gdb cannot evaluate is reported with the whole text |
| DataExtractor.IntVectorSlice | gdbplotlib/type_handler.py:74-103 | a:b on a `std::vector<int>` laid out in memory gives the int32 values xs[a], ..., xs[b-1] |
| DataExtractor.VectorSliceExtraction | gdbplotlib/data_extractor.py:50-61 | end to end: the text `v[a:b]` on such a vector gives those values in any type set that dispatches like the default one |
| DataExtractor.DefaultVectorSliceExtraction | gdbplotlib/default.py:4-16 | the same through the default type set |

## Left out

- FortranArray: default.py registers `std_types.FortranArray` first, but std_types.py defines no such class. The default set here is the other eleven handlers, in their order.
- The final `np.squeeze(np.array(out))` of `extract_var` is not modelled. The model returns the nested lists (`Out`) that `extract_all` builds.
- plot.py and save.py, the gdb commands that consume the array, are not part of this model.
- The gdb interface is an input, not code: `parse_and_eval` becomes the `evalInt`/`evalValue` functions of `Inferior`, and memory is a map. `gdb.types.get_basic_type` is taken as the identity: typedefs, const and volatile are not modelled.
- Gdb.Load: memory is addressed in element slots, with pointer arithmetic as integer addition. Byte layout, alignment and element sizes are not modelled. gdb values are lazy, but the model reads an element as soon as `extract` selects it. So where Python never fetches an element, the model can still fail. For example, with `int** p`, `p[0:2]` gives `[[], []]` in Python even when `p[0]` and `p[1]` are unmapped, because the inner pointers are never read; the model reports a memory error.
- StdTypes.ExtractScalar: `np.float64`, `np.float32` and the complex conversions (including the regular expression in `extract_complex`) are kept opaque. The result is the raw gdb value tagged with the handler. Floating point is not modelled.
- StdTypes.ExtractScalar: NumPy's conversion of an out-of-range integer to a fixed-width dtype (wrap-around or error) is not modelled. The integer is kept with its dtype.
- StdTypes.ShapeOf: the `print(size)` in `StdVectorBool.shape` is output only and is left out. The vector<bool> start offset `_M_start._M_offset` is not represented, because the source never reads it.
- Gdb.Spelling: gdb's spelling of nested array types (`int [3][4]`) and of pointers to arrays (`int (*)[3]`) is not reproduced. An array type is spelled as its element type followed by ` [n]`, and a pointer as its target followed by ` *` (`*` after another pointer). The handlers only test spellings of named types and prefixes, so only error texts depend on this.
- StdTypes.IntegralDtypeIsLp64: the reference table is that of x86-64 Linux, where plain `char` is signed, as Integral assumes. On targets where plain `char` is unsigned (AArch64 Linux, for one) Integral's `i1` for `char` differs from the platform's signedness; the model states Integral's choice, not the platform's.
- Util.IndexRange: `indices_1d` is a lazy generator. The model consumes it to the end. The one case where it never ends (unbounded dimension, step 0, start > stop) becomes the error `Diverges`. Inside `gen_output` Python extracts element `start` before looping again, so when that element raises (for example `p[1:0:0]` with `p + 1` unmapped) Python reports that error, while the model reports `Diverges`. An error that Python would raise lazily, after earlier elements were produced, is reported as the result of the whole call.
- Util.StripNonAlphanumeric: `\w` is taken as ASCII letters, digits and `_`. Python's Unicode word characters are not modelled.
- Util.Indices: `indices` is not called by the extraction path. Its tuples, their count and their row-major order are stated by `MultiIndicesShape` and `PrefixedAt`, but the model does not relate them to the nested loops of `gen_output`.
- Engine.TypeHandler.GenOutput: states that the contained handler's dtype is either kept or set to the dtype of the element type, not which one. It is set exactly when at least one element is extracted.
- StdTypes.ElementRepr: each handler's `extract` is split in two. `ElementRepr` covers the containers and `ExtractScalar` covers the scalars, since the two return different kinds of result.
- Engine: `TypeSet` and `TypeHandler` share one module because each refers to the other.
- DataExtractor.EvalComponents: `evalInt` stands for the whole of `int(gdb.parse_and_eval(x))`, conversions included (gdb's `int()` truncates a floating value rather than failing); a component for which that raises `ValueError` or `gdb.error` is one where `evalInt` gives `None`. The conversions themselves are not modelled.
