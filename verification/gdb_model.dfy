/** What the engine sees of gdb: types after `gdb.types.get_basic_type`,
    values with their contents, the memory of the inferior, and the two
    evaluation entry points. The engine only ever reads these. */
module Gdb {
  import opened Wrappers
  import opened Exceptions
  import opened Text

  /** One argument of a class template: a type or an integer. */
  datatype TemplateArg = TypeArg(ty: GdbType) | ValueArg(n: int)

  /** A basic gdb.Type. `Named` covers scalars, structs and class-template
      instances, spelled as gdb spells them (`"unsigned long"`,
      `"std::vector<int, std::allocator<int> >"`); `PointerTo` is
      TYPE_CODE_PTR and `ArrayOf` TYPE_CODE_ARRAY with `range() == (0, high)`. */
  datatype GdbType =
    | Named(name: string, args: seq<TemplateArg>)
    | PointerTo(target: GdbType)
    | ArrayOf(target: GdbType, high: int)

  /** `str(gdb_type)`: a pointer or array type is spelled after its target. */
  function Spelling(t: GdbType): string {
    match t
    case Named(name, _) => name
    case PointerTo(target) => Spelling(target) + PointerMark(target)
    case ArrayOf(target, high) => Spelling(target) + " [" + Decimal(high + 1) + "]"
  }

  /** What follows the target in a pointer's spelling: gdb writes `int *`
      but `int **`. */
  function PointerMark(target: GdbType): string {
    if target.PointerTo? then "*" else " *"
  }

  /** A pointer or array type's spelling starts with its target's, which is
      what lets the prefix tests of the container handlers claim pointers to
      containers; a pointer's spelling ends in `*`. */
  lemma SpellingExtendsTarget(t: GdbType)
    requires !t.Named?
    ensures StartsWith(Spelling(t), Spelling(t.target))
    ensures t.PointerTo? ==> |Spelling(t)| > 0 && Spelling(t)[|Spelling(t)| - 1] == '*'
  {
  }

  /** `str()` of a template argument. */
  function ArgSpelling(a: TemplateArg): string {
    match a
    case TypeArg(t) => Spelling(t)
    case ValueArg(n) => Decimal(n)
  }

  /** `gdb_type.template_argument(k)`, which raises for a type that is not a
      template instance or has fewer arguments. */
  function TemplateArgument(t: GdbType, k: nat): (r: Result<TemplateArg, Error>)
    ensures r.Ok? <==> t.Named? && k < |t.args|
    ensures r.Ok? ==> r.value == t.args[k]
    ensures r.Failure? ==> r.error == TemplateArgumentError(Spelling(t), k)
  {
    if t.Named? && k < |t.args| then Ok(t.args[k])
    else Failure(TemplateArgumentError(Spelling(t), k))
  }

  /** `gdb_type.target()`: the pointee or element type. */
  function Target(t: GdbType): Result<GdbType, Error> {
    match t
    case PointerTo(target) => Ok(target)
    case ArrayOf(target, _) => Ok(target)
    case Named(_, _) => Failure(NoSuchTypeProperty(Spelling(t)))
  }

  /** `gdb_type.range()[1]`: the highest index of an array type. */
  function RangeHigh(t: GdbType): Result<int, Error> {
    match t
    case ArrayOf(_, high) => Ok(high)
    case _ => Failure(NoSuchTypeProperty(Spelling(t)))
  }

  /** The contents of a value, as far as the handlers look into it.
      Addresses count elements of the pointee type, as gdb's pointer
      arithmetic does. */
  datatype Repr =
      /** A scalar: an integer, a bool as 0 or 1, or a floating-point or
          complex value kept as an opaque number. */
    | Raw(n: int)
      /** A std::vector: `_M_impl._M_start` and `_M_impl._M_finish`. */
    | VectorImpl(start: int, finish: int)
      /** A std::vector<bool>: `_M_impl._M_start._M_p`,
          `_M_impl._M_finish._M_p` (addresses of 64-bit words) and
          `_M_impl._M_finish._M_offset`. */
    | BitVectorImpl(startWord: int, finishWord: int, finishOffset: int)
      /** The elements of a C array, or the `_M_elems` of a std::array. */
    | Elems(elems: seq<Repr>)
      /** A pointer. */
    | Address(address: int)

  /** A gdb.Value: its type and its contents. */
  datatype Value = Value(ty: GdbType, repr: Repr)

  /** The readable memory of the inferior, one element per address. */
  type Memory = map<int, Repr>

  /** Dereferencing an address. */
  function Load(mem: Memory, address: int): (r: Result<Repr, Error>)
    ensures r.Ok? <==> address in mem
    ensures r.Ok? ==> r.value == mem[address]
    ensures r.Failure? ==> r.error == MemoryError(address)
  {
    if address in mem then Ok(mem[address]) else Failure(MemoryError(address))
  }

  /** `int(gdb_value)` */
  function IntOf(r: Repr): Result<int, Error> {
    match r
    case Raw(n) => Ok(n)
    case Address(a) => Ok(a)
    case _ => Failure(NotAScalar)
  }

  /** The debugged process as the engine reaches it through
      `gdb.parse_and_eval`: `evalInt` is `int(gdb.parse_and_eval(x))`, with
      None where that raises ValueError or gdb.error; `evalValue` resolves a
      variable expression, with None where gdb.error is raised. */
  datatype Inferior = Inferior(
    evalInt: string -> Option<int>,
    evalValue: string -> Option<Value>,
    mem: Memory)
}
