/** What `TypeHandler.extract_all` computes: the nested lists of scalars
    selected by a list of slices, one slice per dimension, the dimensions
    of a container first and those of its elements after. */
module TypeHandlers {
  import opened Wrappers
  import opened Exceptions
  import opened Gdb
  import opened Util
  import opened StdTypes
  import opened TypeSets
  import opened Text

  /** The result of `extract_all`: a NumPy scalar, or a (nested) list. */
  datatype Out = Leaf(p: Prim) | Node(children: seq<Out>)

  function Min(a: int, b: int): int {
    if a < b then a else b
  }

  /** The dtype Integral.contained_type leaves behind for a value of type
      `t`, and no dtype for the other handlers. For every type Integral
      accepts, it is that type's x86-64 size and signedness. */
  function StoredDtype(k: HandlerKind, t: GdbType): (r: Option<Dtype>)
    ensures r.Some? <==> k.Integral?
    ensures r.Some? ==> (r.value.unsigned <==> Contains(Spelling(t), "unsigned")) && r.value.size in {1, 2, 4, 8}
    ensures r.Some? && Spelling(t) in Lp64 ==> r.value == Lp64[Spelling(t)]
  {
    if !k.Integral? then None
    else if Spelling(t) in Lp64 then
      Lp64Dtype(Spelling(t));
      Some(DtypeOf(Spelling(t)))
    else Some(DtypeOf(Spelling(t)))
  }

  /** `handler.extract_all(gdb_value, slices)` for a handler of class `k`
      in a type set whose handler classes are `hs`. The shape is read
      first, then the contained type; a scalar ignores the slices; a
      container resolves the handler of its elements, takes the first
      `len(shape)` slices for itself (padding with full slices) and hands
      the others down to its elements. */
  function ExtractAllSpec(hs: seq<HandlerKind>, k: HandlerKind, v: Value, slices: seq<Slice>, mem: Memory)
    : (r: Result<Out, Error>)
    decreases v.ty, 2, 0, 0
  {
    var shape :- ShapeOf(k, v);
    var ct :- ContainedTypeOf(k, v.ty);
    if ct.None? then
      var p :- ExtractScalar(k, StoredDtype(k, v.ty), v);
      Ok(Leaf(p))
    else
      var ck :- Dispatch(hs, ct.value);
      var n := Min(|shape|, |slices|);
      GenOutputSpec(hs, k, v, ct.value, ck, Padded(slices[..n], |shape|), shape, [], slices[n..], mem)
  }

  /** The nested `gen_output(slc, shp, index)` of `extract_all`: one list
      level per remaining dimension, and at the bottom the element at
      `index` extracted by the contained handler `ck` with the slices
      `rest`. */
  function GenOutputSpec(hs: seq<HandlerKind>, k: HandlerKind, v: Value, ct: GdbType, ck: HandlerKind,
                         slc: seq<Slice>, shp: seq<Option<int>>, index: seq<int>, rest: seq<Slice>, mem: Memory)
    : (r: Result<Out, Error>)
    requires |slc| == |shp| && !IsScalarKind(k) && ContainedTypeOf(k, v.ty) == Ok(Some(ct))
    decreases v.ty, 1, |shp|, 1
  {
    if |shp| == 0 then
      var e :- ElementRepr(k, v, index, mem);
      ExtractAllSpec(hs, ck, Value(ct, e), rest, mem)
    else
      var ids :- IndexRange(slc[0], shp[0]);
      var children :- GenListSpec(hs, k, v, ct, ck, slc[1..], shp[1..], index, ids, rest, mem);
      Ok(Node(children))
  }

  /** The loop of `gen_output` over the indices `ids` of one dimension,
      stopping at the first error. */
  function GenListSpec(hs: seq<HandlerKind>, k: HandlerKind, v: Value, ct: GdbType, ck: HandlerKind,
                       slc: seq<Slice>, shp: seq<Option<int>>, index: seq<int>, ids: seq<int>,
                       rest: seq<Slice>, mem: Memory)
    : (r: Result<seq<Out>, Error>)
    requires |slc| == |shp| && !IsScalarKind(k) && ContainedTypeOf(k, v.ty) == Ok(Some(ct))
    ensures r.Ok? ==> |r.value| == |ids|
    decreases v.ty, 1, |shp| + 1, 0, |ids|
  {
    if |ids| == 0 then Ok([])
    else
      var o :- GenOutputSpec(hs, k, v, ct, ck, slc, shp, index + [ids[0]], rest, mem);
      var os :- GenListSpec(hs, k, v, ct, ck, slc, shp, index, ids[1..], rest, mem);
      Ok([o] + os)
  }

  // ---------------------------------------------------------------------
  // Depth of the output

  /** How many list levels an extraction from a value of type `t` with
      handler `k` produces: one per container on the way down to the
      scalars (every container handler has one dimension). */
  function Depth(hs: seq<HandlerKind>, k: HandlerKind, t: GdbType): nat
    decreases t
  {
    match ContainedTypeOf(k, t)
    case Ok(Some(ct)) =>
      (match Dispatch(hs, ct)
       case Ok(ck) => 1 + Depth(hs, ck, ct)
       case Failure(_) => 1)
    case _ => 0
  }

  /** A nested list whose leaves all sit exactly `d` levels down. */
  predicate Uniform(o: Out, d: nat)
    decreases o
  {
    if d == 0 then o.Leaf?
    else o.Node? && forall c :: c in o.children ==> Uniform(c, d - 1)
  }

  /** Every scalar of an extraction sits at the depth of the type. */
  lemma {:induction false} ExtractAllDepth(hs: seq<HandlerKind>, k: HandlerKind, v: Value, slices: seq<Slice>, mem: Memory)
    requires ExtractAllSpec(hs, k, v, slices, mem).Ok?
    ensures Uniform(ExtractAllSpec(hs, k, v, slices, mem).value, Depth(hs, k, v.ty))
    decreases v.ty, 1
  {
    var ct := ContainedTypeOf(k, v.ty).value;
    if ct.Some? {
      assert Dispatch(hs, ct.value).Ok?;
      ElementsDepth(hs, ct.value, slices[Min(1, |slices|)..], mem);
      ContainerDepth(hs, k, v, slices, mem);
    } else {
      assert Depth(hs, k, v.ty) == 0;
    }
  }

  /** Every element of type `ct` extracts to the depth of `ct`. */
  lemma {:induction false} ElementsDepth(hs: seq<HandlerKind>, ct: GdbType, rest: seq<Slice>, mem: Memory)
    requires Dispatch(hs, ct).Ok?
    ensures forall e :: ExtractAllSpec(hs, Dispatch(hs, ct).value, Value(ct, e), rest, mem).Ok? ==>
              Uniform(ExtractAllSpec(hs, Dispatch(hs, ct).value, Value(ct, e), rest, mem).value, Depth(hs, Dispatch(hs, ct).value, ct))
    decreases ct, 2
  {
    var ck := Dispatch(hs, ct).value;
    forall e | ExtractAllSpec(hs, ck, Value(ct, e), rest, mem).Ok?
      ensures Uniform(ExtractAllSpec(hs, ck, Value(ct, e), rest, mem).value, Depth(hs, ck, ct))
    {
      ExtractAllDepth(hs, ck, Value(ct, e), rest, mem);
    }
  }

  /** One container level on top of elements of uniform depth. */
  lemma ContainerDepth(hs: seq<HandlerKind>, k: HandlerKind, v: Value, slices: seq<Slice>, mem: Memory)
    requires ExtractAllSpec(hs, k, v, slices, mem).Ok?
    requires ContainedTypeOf(k, v.ty).Ok? && ContainedTypeOf(k, v.ty).value.Some?
    requires var ct := ContainedTypeOf(k, v.ty).value.value;
             Dispatch(hs, ct).Ok? &&
             forall e :: ExtractAllSpec(hs, Dispatch(hs, ct).value, Value(ct, e), slices[Min(1, |slices|)..], mem).Ok? ==>
               Uniform(ExtractAllSpec(hs, Dispatch(hs, ct).value, Value(ct, e), slices[Min(1, |slices|)..], mem).value,
                       Depth(hs, Dispatch(hs, ct).value, ct))
    ensures Uniform(ExtractAllSpec(hs, k, v, slices, mem).value, Depth(hs, k, v.ty))
  {
    var ct := ContainedTypeOf(k, v.ty).value.value;
    var ck := Dispatch(hs, ct).value;
    var d := Depth(hs, ck, ct);
    DepthOfContainer(hs, k, v.ty);
    var n := Min(1, |slices|);
    ContainerUnfold(hs, k, v, slices, mem);
    GenOutputDepth(hs, k, v, ct, ck, Padded(slices[..n], 1), ShapeOf(k, v).value, [], slices[n..], mem, d);
  }

  lemma DepthOfContainer(hs: seq<HandlerKind>, k: HandlerKind, t: GdbType)
    requires ContainedTypeOf(k, t).Ok? && ContainedTypeOf(k, t).value.Some?
    requires Dispatch(hs, ContainedTypeOf(k, t).value.value).Ok?
    ensures var ct := ContainedTypeOf(k, t).value.value;
            Depth(hs, k, t) == 1 + Depth(hs, Dispatch(hs, ct).value, ct)
  {
  }

  /** A container's extraction is the nested loop over its one dimension. */
  lemma ContainerUnfold(hs: seq<HandlerKind>, k: HandlerKind, v: Value, slices: seq<Slice>, mem: Memory)
    requires ShapeOf(k, v).Ok? && ContainedTypeOf(k, v.ty).Ok? && ContainedTypeOf(k, v.ty).value.Some?
    requires Dispatch(hs, ContainedTypeOf(k, v.ty).value.value).Ok?
    ensures !IsScalarKind(k) && |ShapeOf(k, v).value| == 1
    ensures var ct := ContainedTypeOf(k, v.ty).value.value;
            var n := Min(1, |slices|);
            ExtractAllSpec(hs, k, v, slices, mem)
              == GenOutputSpec(hs, k, v, ct, Dispatch(hs, ct).value, Padded(slices[..n], 1), ShapeOf(k, v).value, [], slices[n..], mem)
  {
  }

  /** When every element extracts to depth `d`, `gen_output` adds one
      list level per remaining dimension. */
  lemma {:induction false} GenOutputDepth(hs: seq<HandlerKind>, k: HandlerKind, v: Value, ct: GdbType, ck: HandlerKind,
                                          slc: seq<Slice>, shp: seq<Option<int>>, index: seq<int>, rest: seq<Slice>,
                                          mem: Memory, d: nat)
    requires |slc| == |shp| && !IsScalarKind(k) && ContainedTypeOf(k, v.ty) == Ok(Some(ct))
    requires forall e :: ExtractAllSpec(hs, ck, Value(ct, e), rest, mem).Ok? ==>
               Uniform(ExtractAllSpec(hs, ck, Value(ct, e), rest, mem).value, d)
    requires GenOutputSpec(hs, k, v, ct, ck, slc, shp, index, rest, mem).Ok?
    ensures Uniform(GenOutputSpec(hs, k, v, ct, ck, slc, shp, index, rest, mem).value, |shp| + d)
    decreases |shp|, 1
  {
    if |shp| == 0 {
      var e := ElementRepr(k, v, index, mem).value;
      assert GenOutputSpec(hs, k, v, ct, ck, slc, shp, index, rest, mem) == ExtractAllSpec(hs, ck, Value(ct, e), rest, mem);
    } else {
      var ids := IndexRange(slc[0], shp[0]).value;
      var children := GenListSpec(hs, k, v, ct, ck, slc[1..], shp[1..], index, ids, rest, mem);
      assert GenOutputSpec(hs, k, v, ct, ck, slc, shp, index, rest, mem) == Ok(Node(children.value));
      GenListDepth(hs, k, v, ct, ck, slc[1..], shp[1..], index, ids, rest, mem, d);
      assert |shp[1..]| + d == |shp| + d - 1;
      UniformNode(children.value, |shp| + d);
    }
  }

  lemma {:induction false} GenListDepth(hs: seq<HandlerKind>, k: HandlerKind, v: Value, ct: GdbType, ck: HandlerKind,
                                        slc: seq<Slice>, shp: seq<Option<int>>, index: seq<int>, ids: seq<int>,
                                        rest: seq<Slice>, mem: Memory, d: nat)
    requires |slc| == |shp| && !IsScalarKind(k) && ContainedTypeOf(k, v.ty) == Ok(Some(ct))
    requires forall e :: ExtractAllSpec(hs, ck, Value(ct, e), rest, mem).Ok? ==>
               Uniform(ExtractAllSpec(hs, ck, Value(ct, e), rest, mem).value, d)
    requires GenListSpec(hs, k, v, ct, ck, slc, shp, index, ids, rest, mem).Ok?
    ensures forall c :: c in GenListSpec(hs, k, v, ct, ck, slc, shp, index, ids, rest, mem).value ==> Uniform(c, |shp| + d)
    decreases |shp|, 2, |ids|
  {
    if |ids| > 0 {
      var o := GenOutputSpec(hs, k, v, ct, ck, slc, shp, index + [ids[0]], rest, mem);
      var os := GenListSpec(hs, k, v, ct, ck, slc, shp, index, ids[1..], rest, mem);
      assert GenListSpec(hs, k, v, ct, ck, slc, shp, index, ids, rest, mem) == Ok([o.value] + os.value);
      GenOutputDepth(hs, k, v, ct, ck, slc, shp, index + [ids[0]], rest, mem, d);
      GenListDepth(hs, k, v, ct, ck, slc, shp, index, ids[1..], rest, mem, d);
    }
  }

  /** A list of entries of depth `d - 1` has depth `d`. */
  lemma UniformNode(cs: seq<Out>, d: nat)
    requires d > 0 && forall c :: c in cs ==> Uniform(c, d - 1)
    ensures Uniform(Node(cs), d)
  {
  }

  // ---------------------------------------------------------------------
  // Which slices matter

  /** Two lists of slices that select the same from every element of type
      `ct` select the same from the container as well. */
  lemma {:induction false} GenOutputRest(hs: seq<HandlerKind>, k: HandlerKind, v: Value, ct: GdbType, ck: HandlerKind,
                                         slc: seq<Slice>, shp: seq<Option<int>>, index: seq<int>,
                                         rest1: seq<Slice>, rest2: seq<Slice>, mem: Memory)
    requires |slc| == |shp| && !IsScalarKind(k) && ContainedTypeOf(k, v.ty) == Ok(Some(ct))
    requires forall e :: ExtractAllSpec(hs, ck, Value(ct, e), rest1, mem) == ExtractAllSpec(hs, ck, Value(ct, e), rest2, mem)
    ensures GenOutputSpec(hs, k, v, ct, ck, slc, shp, index, rest1, mem) == GenOutputSpec(hs, k, v, ct, ck, slc, shp, index, rest2, mem)
    decreases |shp|, 1
  {
    if |shp| > 0 && IndexRange(slc[0], shp[0]).Ok? {
      var ids := IndexRange(slc[0], shp[0]).value;
      GenListRest(hs, k, v, ct, ck, slc[1..], shp[1..], index, ids, rest1, rest2, mem);
      var l := GenListSpec(hs, k, v, ct, ck, slc[1..], shp[1..], index, ids, rest1, mem);
      assert GenOutputSpec(hs, k, v, ct, ck, slc, shp, index, rest1, mem) == if l.Ok? then Ok(Node(l.value)) else Failure(l.error);
      assert GenOutputSpec(hs, k, v, ct, ck, slc, shp, index, rest2, mem) == if l.Ok? then Ok(Node(l.value)) else Failure(l.error);
    }
  }

  lemma {:induction false} GenListRest(hs: seq<HandlerKind>, k: HandlerKind, v: Value, ct: GdbType, ck: HandlerKind,
                                       slc: seq<Slice>, shp: seq<Option<int>>, index: seq<int>, ids: seq<int>,
                                       rest1: seq<Slice>, rest2: seq<Slice>, mem: Memory)
    requires |slc| == |shp| && !IsScalarKind(k) && ContainedTypeOf(k, v.ty) == Ok(Some(ct))
    requires forall e :: ExtractAllSpec(hs, ck, Value(ct, e), rest1, mem) == ExtractAllSpec(hs, ck, Value(ct, e), rest2, mem)
    ensures GenListSpec(hs, k, v, ct, ck, slc, shp, index, ids, rest1, mem) == GenListSpec(hs, k, v, ct, ck, slc, shp, index, ids, rest2, mem)
    decreases |shp| + 1, 0, |ids|
  {
    if |ids| > 0 {
      GenOutputRest(hs, k, v, ct, ck, slc, shp, index + [ids[0]], rest1, rest2, mem);
      GenListRest(hs, k, v, ct, ck, slc, shp, index, ids[1..], rest1, rest2, mem);
    }
  }

  /** A container extracts the same with two lists of slices that agree
      on its own dimension and select the same from every element. */
  lemma ContainerRest(hs: seq<HandlerKind>, k: HandlerKind, v: Value, s1: seq<Slice>, s2: seq<Slice>, mem: Memory)
    requires ShapeOf(k, v).Ok? && ContainedTypeOf(k, v.ty).Ok? && ContainedTypeOf(k, v.ty).value.Some?
    requires var ct := ContainedTypeOf(k, v.ty).value.value;
             Dispatch(hs, ct).Ok? &&
             forall e :: ExtractAllSpec(hs, Dispatch(hs, ct).value, Value(ct, e), s1[Min(1, |s1|)..], mem)
                      == ExtractAllSpec(hs, Dispatch(hs, ct).value, Value(ct, e), s2[Min(1, |s2|)..], mem)
    requires Padded(s1[..Min(1, |s1|)], 1) == Padded(s2[..Min(1, |s2|)], 1)
    ensures ExtractAllSpec(hs, k, v, s1, mem) == ExtractAllSpec(hs, k, v, s2, mem)
  {
    var shape := ShapeOf(k, v).value;
    var ct := ContainedTypeOf(k, v.ty).value.value;
    ContainerUnfold(hs, k, v, s1, mem);
    ContainerUnfold(hs, k, v, s2, mem);
    var ck := Dispatch(hs, ct).value;
    var slc := Padded(s1[..Min(1, |s1|)], 1);
    GenOutputRest(hs, k, v, ct, ck, slc, shape, [], s1[Min(1, |s1|)..], s2[Min(1, |s2|)..], mem);
  }

  /** Slices beyond the depth of the type are ignored. */
  lemma {:induction false} ExtraSlicesIgnored(hs: seq<HandlerKind>, k: HandlerKind, v: Value, slices: seq<Slice>,
                                              extra: seq<Slice>, mem: Memory)
    requires |slices| >= Depth(hs, k, v.ty)
    ensures ExtractAllSpec(hs, k, v, slices + extra, mem) == ExtractAllSpec(hs, k, v, slices, mem)
    decreases v.ty, 1
  {
    var ct := ContainedTypeOf(k, v.ty);
    if ShapeOf(k, v).Ok? && ct.Ok? && ct.value.Some? && Dispatch(hs, ct.value.value).Ok? {
      assert |slices| >= 1;
      assert (slices + extra)[..1] == slices[..1];
      assert (slices + extra)[1..] == slices[1..] + extra;
      ElementsIgnoreExtra(hs, ct.value.value, slices[1..], extra, mem);
      ContainerRest(hs, k, v, slices + extra, slices, mem);
    }
  }

  lemma {:induction false} ElementsIgnoreExtra(hs: seq<HandlerKind>, ct: GdbType, rest: seq<Slice>, extra: seq<Slice>, mem: Memory)
    requires Dispatch(hs, ct).Ok? && |rest| >= Depth(hs, Dispatch(hs, ct).value, ct)
    ensures forall e :: ExtractAllSpec(hs, Dispatch(hs, ct).value, Value(ct, e), rest + extra, mem)
                     == ExtractAllSpec(hs, Dispatch(hs, ct).value, Value(ct, e), rest, mem)
    decreases ct, 2
  {
    forall e {
      ExtraSlicesIgnored(hs, Dispatch(hs, ct).value, Value(ct, e), rest, extra, mem);
    }
  }

  /** A full slice `:` at the end of the list changes nothing: missing
      slices select everything. */
  lemma {:induction false} TrailingFullSlice(hs: seq<HandlerKind>, k: HandlerKind, v: Value, slices: seq<Slice>, mem: Memory)
    ensures ExtractAllSpec(hs, k, v, slices + [Full], mem) == ExtractAllSpec(hs, k, v, slices, mem)
    decreases v.ty, 1
  {
    var ct := ContainedTypeOf(k, v.ty);
    if ShapeOf(k, v).Ok? && ct.Ok? && ct.value.Some? && Dispatch(hs, ct.value.value).Ok? {
      if |slices| == 0 {
        assert ([] + [Full])[..1] == [Full] && ([] + [Full])[1..] == [];
        assert Padded([Full], 1) == [Full] == Padded([], 1);
      } else {
        assert (slices + [Full])[..1] == slices[..1];
        assert (slices + [Full])[1..] == slices[1..] + [Full];
        ElementsIgnoreFull(hs, ct.value.value, slices[1..], mem);
      }
      ContainerRest(hs, k, v, slices + [Full], slices, mem);
    }
  }

  lemma {:induction false} ElementsIgnoreFull(hs: seq<HandlerKind>, ct: GdbType, rest: seq<Slice>, mem: Memory)
    requires Dispatch(hs, ct).Ok?
    ensures forall e :: ExtractAllSpec(hs, Dispatch(hs, ct).value, Value(ct, e), rest + [Full], mem)
                     == ExtractAllSpec(hs, Dispatch(hs, ct).value, Value(ct, e), rest, mem)
    decreases ct, 2
  {
    forall e {
      TrailingFullSlice(hs, Dispatch(hs, ct).value, Value(ct, e), rest, mem);
    }
  }

  // ---------------------------------------------------------------------
  // What one container level selects

  /** The loop over one dimension succeeds exactly when the output at
      each selected index does. */
  lemma GenListSucceeds(hs: seq<HandlerKind>, k: HandlerKind, v: Value, ct: GdbType, ck: HandlerKind,
                        index: seq<int>, ids: seq<int>, rest: seq<Slice>, mem: Memory)
    requires !IsScalarKind(k) && ContainedTypeOf(k, v.ty) == Ok(Some(ct))
    ensures GenListSpec(hs, k, v, ct, ck, [], [], index, ids, rest, mem).Ok? <==>
            forall j :: 0 <= j < |ids| ==> GenOutputSpec(hs, k, v, ct, ck, [], [], index + [ids[j]], rest, mem).Ok?
  {
    if GenListSpec(hs, k, v, ct, ck, [], [], index, ids, rest, mem).Ok? {
      GenListEntries(hs, k, v, ct, ck, index, ids, rest, mem);
    } else {
      GenListFails(hs, k, v, ct, ck, index, ids, rest, mem);
    }
  }

  /** A failing loop raises the error of the first selected index whose
      output fails, all earlier ones having succeeded. */
  lemma {:induction false} GenListFails(hs: seq<HandlerKind>, k: HandlerKind, v: Value, ct: GdbType, ck: HandlerKind,
                                        index: seq<int>, ids: seq<int>, rest: seq<Slice>, mem: Memory)
    requires !IsScalarKind(k) && ContainedTypeOf(k, v.ty) == Ok(Some(ct))
    requires GenListSpec(hs, k, v, ct, ck, [], [], index, ids, rest, mem).Failure?
    ensures exists j :: && 0 <= j < |ids|
                        && GenOutputSpec(hs, k, v, ct, ck, [], [], index + [ids[j]], rest, mem)
                             == Failure(GenListSpec(hs, k, v, ct, ck, [], [], index, ids, rest, mem).error)
                        && forall i :: 0 <= i < j ==> GenOutputSpec(hs, k, v, ct, ck, [], [], index + [ids[i]], rest, mem).Ok?
    decreases |ids|
  {
    var e := GenListSpec(hs, k, v, ct, ck, [], [], index, ids, rest, mem).error;
    if GenOutputSpec(hs, k, v, ct, ck, [], [], index + [ids[0]], rest, mem).Ok? {
      GenListFails(hs, k, v, ct, ck, index, ids[1..], rest, mem);
      var j :| && 0 <= j < |ids| - 1
               && GenOutputSpec(hs, k, v, ct, ck, [], [], index + [ids[1..][j]], rest, mem) == Failure(e)
               && forall i :: 0 <= i < j ==> GenOutputSpec(hs, k, v, ct, ck, [], [], index + [ids[1..][i]], rest, mem).Ok?;
      FirstFailureShift(hs, k, v, ct, ck, index, ids, rest, mem, j, e);
    }
  }

  /** The first failure among the later indices, shifted past an index
      that succeeded. */
  lemma FirstFailureShift(hs: seq<HandlerKind>, k: HandlerKind, v: Value, ct: GdbType, ck: HandlerKind,
                          index: seq<int>, ids: seq<int>, rest: seq<Slice>, mem: Memory, j: nat, e: Error)
    requires !IsScalarKind(k) && ContainedTypeOf(k, v.ty) == Ok(Some(ct))
    requires j + 1 < |ids| && GenOutputSpec(hs, k, v, ct, ck, [], [], index + [ids[0]], rest, mem).Ok?
    requires GenOutputSpec(hs, k, v, ct, ck, [], [], index + [ids[1..][j]], rest, mem) == Failure(e)
    requires forall i :: 0 <= i < j ==> GenOutputSpec(hs, k, v, ct, ck, [], [], index + [ids[1..][i]], rest, mem).Ok?
    ensures GenOutputSpec(hs, k, v, ct, ck, [], [], index + [ids[j + 1]], rest, mem) == Failure(e)
    ensures forall i :: 0 <= i < j + 1 ==> GenOutputSpec(hs, k, v, ct, ck, [], [], index + [ids[i]], rest, mem).Ok?
  {
    assert forall i :: 1 <= i <= j + 1 ==> ids[i] == ids[1..][i - 1];
  }

  /** When the loop succeeds, it yields, in order, the outputs at the
      selected indices. */
  lemma {:induction false} GenListEntries(hs: seq<HandlerKind>, k: HandlerKind, v: Value, ct: GdbType, ck: HandlerKind,
                                          index: seq<int>, ids: seq<int>, rest: seq<Slice>, mem: Memory)
    requires !IsScalarKind(k) && ContainedTypeOf(k, v.ty) == Ok(Some(ct))
    requires GenListSpec(hs, k, v, ct, ck, [], [], index, ids, rest, mem).Ok?
    ensures forall j :: 0 <= j < |ids| ==>
              GenOutputSpec(hs, k, v, ct, ck, [], [], index + [ids[j]], rest, mem)
                == Ok(GenListSpec(hs, k, v, ct, ck, [], [], index, ids, rest, mem).value[j])
    decreases |ids|
  {
    if |ids| > 0 {
      var o := GenOutputSpec(hs, k, v, ct, ck, [], [], index + [ids[0]], rest, mem);
      var os := GenListSpec(hs, k, v, ct, ck, [], [], index, ids[1..], rest, mem);
      assert GenListSpec(hs, k, v, ct, ck, [], [], index, ids, rest, mem) == Ok([o.value] + os.value);
      GenListEntries(hs, k, v, ct, ck, index, ids[1..], rest, mem);
      assert forall j :: 1 <= j < |ids| ==> ids[j] == ids[1..][j - 1];
    }
  }

  /** A container answers with one entry per index its first slice
      selects (all of them when there is no slice), in the order of the
      slice, and entry `j` is the extraction of the element at the `j`-th
      selected index with the slices that follow. */
  lemma ContainerSelects(hs: seq<HandlerKind>, k: HandlerKind, v: Value, slices: seq<Slice>, mem: Memory)
    requires !IsScalarKind(k) && ExtractAllSpec(hs, k, v, slices, mem).Ok?
    ensures ShapeOf(k, v).Ok? && ContainedTypeOf(k, v.ty).Ok? && ContainedTypeOf(k, v.ty).value.Some?
    ensures var ct := ContainedTypeOf(k, v.ty).value.value;
            var s := if |slices| == 0 then Full else slices[0];
            && Dispatch(hs, ct).Ok?
            && IndexRange(s, ShapeOf(k, v).value[0]).Ok?
            && var ids := IndexRange(s, ShapeOf(k, v).value[0]).value;
               var o := ExtractAllSpec(hs, k, v, slices, mem).value;
               && o.Node? && |o.children| == |ids|
               && forall j :: 0 <= j < |ids| ==>
                    && ElementRepr(k, v, [ids[j]], mem).Ok?
                    && ExtractAllSpec(hs, Dispatch(hs, ct).value, Value(ct, ElementRepr(k, v, [ids[j]], mem).value),
                                      slices[Min(1, |slices|)..], mem) == Ok(o.children[j])
  {
    var shape := ShapeOf(k, v).value;
    var ct := ContainedTypeOf(k, v.ty).value.value;
    var ck := Dispatch(hs, ct).value;
    var n := Min(1, |slices|);
    ContainerUnfold(hs, k, v, slices, mem);
    var s := if |slices| == 0 then Full else slices[0];
    assert Padded(slices[..n], 1) == [s] && shape == [shape[0]];
    LevelSelects(hs, k, v, ct, ck, s, shape[0], slices[n..], mem);
    var ids := IndexRange(s, shape[0]).value;
    var o := ExtractAllSpec(hs, k, v, slices, mem).value;
    forall j | 0 <= j < |ids|
      ensures && ElementRepr(k, v, [ids[j]], mem).Ok?
              && ExtractAllSpec(hs, ck, Value(ct, ElementRepr(k, v, [ids[j]], mem).value), slices[n..], mem) == Ok(o.children[j])
    {
      LeafEntry(hs, k, v, ct, ck, ids[j], slices[n..], mem, o.children[j]);
    }
  }

  /** The list level of a container: one entry per selected index, entry
      `j` being the output at the `j`-th selected index. */
  lemma LevelSelects(hs: seq<HandlerKind>, k: HandlerKind, v: Value, ct: GdbType, ck: HandlerKind,
                     s: Slice, dim: Option<int>, rest: seq<Slice>, mem: Memory)
    requires !IsScalarKind(k) && ContainedTypeOf(k, v.ty) == Ok(Some(ct))
    requires GenOutputSpec(hs, k, v, ct, ck, [s], [dim], [], rest, mem).Ok?
    ensures IndexRange(s, dim).Ok?
    ensures var ids := IndexRange(s, dim).value;
            var o := GenOutputSpec(hs, k, v, ct, ck, [s], [dim], [], rest, mem).value;
            && o.Node? && |o.children| == |ids|
            && forall j :: 0 <= j < |ids| ==> GenOutputSpec(hs, k, v, ct, ck, [], [], [ids[j]], rest, mem) == Ok(o.children[j])
  {
    var ids := IndexRange(s, dim).value;
    assert [s][1..] == [] && [dim][1..] == [];
    var l := GenListSpec(hs, k, v, ct, ck, [], [], [], ids, rest, mem);
    assert GenOutputSpec(hs, k, v, ct, ck, [s], [dim], [], rest, mem) == Ok(Node(l.value));
    GenListEntries(hs, k, v, ct, ck, [], ids, rest, mem);
    forall j | 0 <= j < |ids|
      ensures GenOutputSpec(hs, k, v, ct, ck, [], [], [ids[j]], rest, mem)
           == GenOutputSpec(hs, k, v, ct, ck, [], [], [] + [ids[j]], rest, mem)
    {
      assert [] + [ids[j]] == [ids[j]];
    }
  }

  /** Conversely, a container extraction succeeds when its shape, element
      type, element handler and index range can be had and every selected
      element can be extracted. */
  lemma ContainerSucceeds(hs: seq<HandlerKind>, k: HandlerKind, v: Value, ct: GdbType, ck: HandlerKind,
                          s: Slice, rest: seq<Slice>, mem: Memory)
    requires !IsScalarKind(k) && ShapeOf(k, v).Ok? && ContainedTypeOf(k, v.ty) == Ok(Some(ct)) && Dispatch(hs, ct) == Ok(ck)
    requires IndexRange(s, ShapeOf(k, v).value[0]).Ok?
    requires forall i :: i in IndexRange(s, ShapeOf(k, v).value[0]).value ==>
               ElementRepr(k, v, [i], mem).Ok? && ExtractAllSpec(hs, ck, Value(ct, ElementRepr(k, v, [i], mem).value), rest, mem).Ok?
    ensures ExtractAllSpec(hs, k, v, [s] + rest, mem).Ok?
  {
    var shape := ShapeOf(k, v).value;
    assert |shape| == 1;
    assert ([s] + rest)[..1] == [s] && ([s] + rest)[1..] == rest;
    assert Padded([s], 1) == [s] && shape == [shape[0]];
    LevelSucceeds(hs, k, v, ct, ck, s, shape[0], rest, mem);
    assert ExtractAllSpec(hs, k, v, [s] + rest, mem) == GenOutputSpec(hs, k, v, ct, ck, [s], shape, [], rest, mem);
  }

  /** The list level of a container succeeds when every selected element
      can be extracted. */
  lemma LevelSucceeds(hs: seq<HandlerKind>, k: HandlerKind, v: Value, ct: GdbType, ck: HandlerKind,
                      s: Slice, dim: Option<int>, rest: seq<Slice>, mem: Memory)
    requires !IsScalarKind(k) && ContainedTypeOf(k, v.ty) == Ok(Some(ct)) && IndexRange(s, dim).Ok?
    requires forall i :: i in IndexRange(s, dim).value ==>
               ElementRepr(k, v, [i], mem).Ok? && ExtractAllSpec(hs, ck, Value(ct, ElementRepr(k, v, [i], mem).value), rest, mem).Ok?
    ensures GenOutputSpec(hs, k, v, ct, ck, [s], [dim], [], rest, mem).Ok?
  {
    var ids := IndexRange(s, dim).value;
    assert [s][1..] == [] && [dim][1..] == [];
    GenListSucceeds(hs, k, v, ct, ck, [], ids, rest, mem);
    forall j | 0 <= j < |ids|
      ensures GenOutputSpec(hs, k, v, ct, ck, [], [], [] + [ids[j]], rest, mem).Ok?
    {
      assert [] + [ids[j]] == [ids[j]];
      assert ids[j] in ids;
      LeafSucceeds(hs, k, v, ct, ck, ids[j], rest, mem);
    }
    var r := GenListSpec(hs, k, v, ct, ck, [], [], [], ids, rest, mem);
    assert GenOutputSpec(hs, k, v, ct, ck, [s], [dim], [], rest, mem) == Ok(Node(r.value));
  }

  lemma LeafEntry(hs: seq<HandlerKind>, k: HandlerKind, v: Value, ct: GdbType, ck: HandlerKind,
                  i: int, rest: seq<Slice>, mem: Memory, x: Out)
    requires !IsScalarKind(k) && ContainedTypeOf(k, v.ty) == Ok(Some(ct))
    requires GenOutputSpec(hs, k, v, ct, ck, [], [], [i], rest, mem) == Ok(x)
    ensures ElementRepr(k, v, [i], mem).Ok?
    ensures ExtractAllSpec(hs, ck, Value(ct, ElementRepr(k, v, [i], mem).value), rest, mem) == Ok(x)
  {
  }

  lemma LeafSucceeds(hs: seq<HandlerKind>, k: HandlerKind, v: Value, ct: GdbType, ck: HandlerKind,
                     i: int, rest: seq<Slice>, mem: Memory)
    requires !IsScalarKind(k) && ContainedTypeOf(k, v.ty) == Ok(Some(ct))
    requires ElementRepr(k, v, [i], mem).Ok? && ExtractAllSpec(hs, ck, Value(ct, ElementRepr(k, v, [i], mem).value), rest, mem).Ok?
    ensures GenOutputSpec(hs, k, v, ct, ck, [], [], [i], rest, mem).Ok?
  {
  }

  /** A scalar handler ignores the slices and, for a scalar value, always
      produces its NumPy scalar; the Integral handler's dtype is the one its
      contained_type chose, so the dtype lookup never fails. */
  lemma ScalarExtraction(hs: seq<HandlerKind>, k: HandlerKind, v: Value, slices: seq<Slice>, mem: Memory)
    requires IsScalarKind(k)
    ensures ExtractAllSpec(hs, k, v, slices, mem) == ExtractAllSpec(hs, k, v, [], mem)
    ensures ExtractAllSpec(hs, k, v, slices, mem).Ok? <==> v.repr.Raw?
    ensures k.Integral? && v.repr.Raw? ==>
              ExtractAllSpec(hs, k, v, slices, mem) == Ok(Leaf(IntPrim(DtypeOf(Spelling(v.ty)), v.repr.n)))
    ensures k.Bool? && v.repr.Raw? ==> ExtractAllSpec(hs, k, v, slices, mem) == Ok(Leaf(BoolPrim(v.repr.n != 0)))
  {
  }

  /** The element handler is looked up before any element is read: a
      container of elements nobody handles fails even when the slice selects
      nothing. */
  lemma UnknownElementTypeFails(hs: seq<HandlerKind>, k: HandlerKind, v: Value, ct: GdbType, slices: seq<Slice>, mem: Memory)
    requires ShapeOf(k, v).Ok? && ContainedTypeOf(k, v.ty) == Ok(Some(ct))
    requires forall j :: 0 <= j < |hs| ==> CanHandle(hs[j], ct) == Ok(false)
    ensures ExtractAllSpec(hs, k, v, slices, mem) == Failure(UnknownTypeError(Spelling(ct)))
  {
    DispatchUnknown(hs, ct);
  }

  /** The outputs `out` already collected, followed by the rest of a loop's
      result: how far the loop of `gen_output` has got. */
  function Prepend(out: seq<Out>, r: Result<seq<Out>, Error>): Result<seq<Out>, Error> {
    match r
    case Ok(os) => Ok(out + os)
    case Failure(e) => Failure(e)
  }

  lemma PrependNothing(r: Result<seq<Out>, Error>)
    ensures Prepend([], r) == r
  {
    if r.Ok? {
      assert [] + r.value == r.value;
    }
  }

  lemma PrependStep(out: seq<Out>, o: Out, r: Result<seq<Out>, Error>)
    ensures Prepend(out, match r case Ok(os) => Ok([o] + os) case Failure(e) => Failure(e)) == Prepend(out + [o], r)
  {
    if r.Ok? {
      assert out + ([o] + r.value) == (out + [o]) + r.value;
    }
  }
}
