/** The objects of the extraction engine: a type set that handler classes
    are registered with, and the handler instances it hands out, which
    walk a value and its elements. The two refer to each other, so they
    share one module. */
module Engine {
  import opened Wrappers
  import opened Exceptions
  import opened Gdb
  import opened Util
  import opened StdTypes
  import opened TypeSets
  import opened TypeHandlers

  /** `TypeSet`: the handler classes, in registration order. */
  class TypeSet {
    var handlers: seq<HandlerKind>

    constructor ()
      ensures handlers == []
    {
      handlers := [];
    }

    /** `register(type_handler)` */
    method Register(h: HandlerKind)
      modifies this
      ensures handlers == old(handlers) + [h]
    {
      handlers := handlers + [h];
    }

    /** `get_handler(gdb_type)`: a new instance of the first handler class
        that accepts the type, bound to this type set. */
    method GetHandler(t: GdbType) returns (r: Result<TypeHandler, Error>)
      ensures r.Failure? ==> Dispatch(handlers, t) == Failure(r.error)
      ensures r.Ok? ==> Dispatch(handlers, t) == Ok(r.value.kind)
      ensures r.Ok? ==> fresh(r.value) && r.value.typeSet == this && r.value.npDtype.None?
    {
      for i := 0 to |handlers|
        invariant Dispatch(handlers[i..], t) == Dispatch(handlers, t)
      {
        assert handlers[i..][0] == handlers[i] && handlers[i..][1..] == handlers[i + 1..];
        var accepted :- CanHandle(handlers[i], t);
        if accepted {
          var h := new TypeHandler(handlers[i], this);
          return Ok(h);
        }
      }
      assert handlers[|handlers|..] == [];
      return Failure(UnknownTypeError(Spelling(t)));
    }
  }

  /** The default type set (FortranArray is not part of this model). */
  method NewDefaultTypeSet() returns (ts: TypeSet)
    ensures fresh(ts) && ts.handlers == DefaultHandlers
  {
    ts := new TypeSet();
    ts.Register(StdVector);
    ts.Register(StdVectorBool);
    ts.Register(StdArray);
    ts.Register(Pointer);
    ts.Register(Array);
    ts.Register(Double);
    ts.Register(Float);
    ts.Register(StdComplexDouble);
    ts.Register(StdComplexFloat);
    ts.Register(Integral);
    ts.Register(Bool);
  }

  /** An instance of one handler class. Only the Integral handler keeps
      state: the dtype its contained_type last chose. */
  class TypeHandler {
    const kind: HandlerKind
    const typeSet: TypeSet
    var npDtype: Option<Dtype>

    constructor (kind: HandlerKind, typeSet: TypeSet)
      ensures this.kind == kind && this.typeSet == typeSet && npDtype.None?
    {
      this.kind := kind;
      this.typeSet := typeSet;
      npDtype := None;
    }

    /** `contained_type(gdb_value)`; the Integral handler also records the
        dtype of the value. */
    method ContainedType(v: Value) returns (r: Result<Option<GdbType>, Error>)
      modifies this
      ensures r == ContainedTypeOf(kind, v.ty)
      ensures npDtype == if kind.Integral? then Some(DtypeOf(Spelling(v.ty))) else old(npDtype)
    {
      if kind.Integral? {
        npDtype := Some(DtypeOf(Spelling(v.ty)));
      }
      r := ContainedTypeOf(kind, v.ty);
    }

    /** `extract_all(gdb_value, slices)` */
    method ExtractAll(v: Value, slices: seq<Slice>, mem: Memory) returns (r: Result<Out, Error>)
      modifies this
      ensures r == ExtractAllSpec(typeSet.handlers, kind, v, slices, mem)
      ensures npDtype == if kind.Integral? then Some(DtypeOf(Spelling(v.ty))) else old(npDtype)
      decreases v.ty, 2
    {
      var shape :- ShapeOf(kind, v);
      var ct :- ContainedType(v);
      if ct.None? {
        var p :- ExtractScalar(kind, npDtype, v);
        return Ok(Leaf(p));
      }
      var contained :- typeSet.GetHandler(ct.value);
      var n := Min(|shape|, |slices|);
      var current := slices[..n];
      for i := n to |shape|
        invariant |current| == i && current[..n] == slices[..n]
        invariant forall j :: n <= j < i ==> current[j] == Full
      {
        current := current + [Full];
      }
      assert current == Padded(slices[..n], |shape|);
      r := GenOutput(v, ct.value, contained, current, shape, [], slices[n..], mem);
    }

    /** The nested `gen_output(slc, shp, index)` of `extract_all`. */
    method GenOutput(v: Value, ct: GdbType, contained: TypeHandler, slc: seq<Slice>, shp: seq<Option<int>>,
                     index: seq<int>, rest: seq<Slice>, mem: Memory) returns (r: Result<Out, Error>)
      requires |slc| == |shp| && !IsScalarKind(kind) && ContainedTypeOf(kind, v.ty) == Ok(Some(ct))
      requires contained.typeSet == typeSet
      modifies contained
      ensures r == GenOutputSpec(typeSet.handlers, kind, v, ct, contained.kind, slc, shp, index, rest, mem)
      ensures contained.npDtype == old(contained.npDtype) ||
              (contained.kind.Integral? && contained.npDtype == Some(DtypeOf(Spelling(ct))))
      decreases v.ty, 1, |shp|
    {
      var hs := typeSet.handlers;
      if |shp| == 0 {
        var e :- ElementRepr(kind, v, index, mem);
        r := contained.ExtractAll(Value(ct, e), rest, mem);
        return;
      }
      var ids :- Indices1D(slc[0], shp[0]);
      var out: seq<Out> := [];
      assert ids[0..] == ids;
      PrependNothing(GenListSpec(hs, kind, v, ct, contained.kind, slc[1..], shp[1..], index, ids, rest, mem));
      for j := 0 to |ids|
        invariant typeSet.handlers == hs
        invariant contained.npDtype == old(contained.npDtype) ||
                  (contained.kind.Integral? && contained.npDtype == Some(DtypeOf(Spelling(ct))))
        invariant Prepend(out, GenListSpec(hs, kind, v, ct, contained.kind, slc[1..], shp[1..], index, ids[j..], rest, mem))
               == GenListSpec(hs, kind, v, ct, contained.kind, slc[1..], shp[1..], index, ids, rest, mem)
      {
        assert ids[j..][0] == ids[j] && ids[j..][1..] == ids[j + 1..];
        var o :- GenOutput(v, ct, contained, slc[1..], shp[1..], index + [ids[j]], rest, mem);
        PrependStep(out, o, GenListSpec(hs, kind, v, ct, contained.kind, slc[1..], shp[1..], index, ids[j + 1..], rest, mem));
        out := out + [o];
      }
      assert ids[|ids|..] == [] && out + [] == out;
      return Ok(Node(out));
    }
  }
}
