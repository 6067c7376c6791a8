/** The exceptions the extraction engine can raise, one constructor each.
    Each carries the text fragment the Python message names. */
module Exceptions {

  datatype Error =
      /** data_extractor.SliceSyntaxError: a slice component that does not
          evaluate, or a dimension with more than three components. */
    | SliceSyntaxError(subslice: string)
      /** TypeError from `None + 1`: a dimension with one empty component. */
    | NoneArithmetic(subslice: string)
      /** data_extractor.VariableError: the base expression does not evaluate. */
    | VariableError(variable: string)
      /** type_set.UnkownTypeError: no registered handler accepts the type. */
    | UnknownTypeError(typeName: string)
      /** ValueError from slice.indices: a step of zero on a known length. */
    | StepZero
      /** ValueError from slice.indices: a negative length. */
    | NegativeLength
      /** The index generator never ends: an unbounded dimension with step 0
          and start > stop (the source loops forever). */
    | Diverges
      /** IndexError: a tuple or sequence index out of range. */
    | IndexError
      /** gdb RuntimeError from Type.template_argument(position). */
    | TemplateArgumentError(typeName: string, position: nat)
      /** A template argument that is a value where a type is needed. */
    | NotAType
      /** TypeError from int() applied to a type template argument. */
    | NotAnInteger
      /** gdb RuntimeError from Type.target() or Type.range() on a type
          that has none. */
    | NoSuchTypeProperty(typeName: string)
      /** gdb.error: the value has no such field. */
    | NoSuchMember(member: string)
      /** gdb.error: subscripting a value that is neither array nor pointer,
          or an array element outside the value that holds it. */
    | CannotSubscript(typeName: string)
      /** gdb.MemoryError: the address cannot be read. */
    | MemoryError(address: int)
      /** A numeric conversion of a value that is not a scalar. */
    | NotAScalar
      /** AttributeError: Integral.extract before contained_type set np_dtype. */
    | AttributeError
}
