/** The entry point: parsing `variable[slice, slice, ...]` and extracting
    the selected data from the debugged process. */
module DataExtractor {
  import opened Wrappers
  import opened Exceptions
  import opened Text
  import opened Gdb
  import opened Util
  import opened StdTypes
  import opened TypeSets
  import opened TypeHandlers
  import opened Engine

  /** The components of one subslice, each evaluated as an integer
      expression by gdb; an empty component stands for "absent". Any
      component gdb cannot evaluate makes the whole subslice invalid. */
  function EvalComponents(parts: seq<string>, sub: string, evalInt: string -> Option<int>): (r: Result<seq<Option<int>>, Error>)
    ensures r.Ok? <==> forall i :: 0 <= i < |parts| && parts[i] != "" ==> evalInt(parts[i]).Some?
    ensures r.Ok? ==> |r.value| == |parts|
    ensures r.Ok? ==> forall i :: 0 <= i < |parts| ==> r.value[i] == ComponentValue(parts[i], evalInt)
    ensures r.Failure? ==> r.error == SliceSyntaxError(sub)
  {
    if |parts| == 0 then Ok([])
    else
      var head :-
        if parts[0] == "" then Ok(None)
        else if evalInt(parts[0]).Some? then Ok(evalInt(parts[0]))
        else Failure(SliceSyntaxError(sub));
      var tail :- EvalComponents(parts[1..], sub, evalInt);
      assert forall i :: 1 <= i < |parts| ==> parts[i] == parts[1..][i - 1];
      Ok([head] + tail)
  }

  /** One component's value: absent when empty, else what gdb makes of it. */
  function ComponentValue(part: string, evalInt: string -> Option<int>): Option<int> {
    if part == "" then None else evalInt(part)
  }

  /** `parse_subslice(subslice)`: `a` is the one-element slice `a:a+1`,
      `a:b` and `a:b:c` are slices; an empty single component fails on
      `None + 1`, and more than three components are a syntax error. */
  function ParseSubslice(sub: string, evalInt: string -> Option<int>): (r: Result<Slice, Error>)
    ensures r.Ok? ==> 1 <= |Split(sub, ':')| <= 3
    ensures r.Ok? && |Split(sub, ':')| == 1 ==> r.value.start.Some? && r.value.stop == Some(r.value.start.value + 1) && r.value.step.None?
    ensures var parts := Split(sub, ':');
            r.Ok? && |parts| == 1 ==> r.value.start == evalInt(parts[0])
    ensures var parts := Split(sub, ':');
            r.Ok? && |parts| == 2 ==> r.value == Slice(ComponentValue(parts[0], evalInt), ComponentValue(parts[1], evalInt), None)
    ensures var parts := Split(sub, ':');
            r.Ok? && |parts| == 3 ==>
              r.value == Slice(ComponentValue(parts[0], evalInt), ComponentValue(parts[1], evalInt), ComponentValue(parts[2], evalInt))
    ensures var parts := Split(sub, ':');
            r.Ok? <==> && |parts| <= 3 && sub != ""
                       && forall i :: 0 <= i < |parts| && parts[i] != "" ==> evalInt(parts[i]).Some?
  {
    var s :- EvalComponents(Split(sub, ':'), sub, evalInt);
    if |s| == 1 then
      if s[0].None? then Failure(NoneArithmetic(sub)) else Ok(Slice(s[0], Some(s[0].value + 1), None))
    else if |s| == 2 then Ok(Slice(s[0], s[1], None))
    else if |s| == 3 then Ok(Slice(s[0], s[1], s[2]))
    else Failure(SliceSyntaxError(sub))
  }

  /** The subslices in order, stopping at the first that fails. */
  function ParseAll(dims: seq<string>, evalInt: string -> Option<int>): (r: Result<seq<Slice>, Error>)
    ensures r.Ok? ==> |r.value| == |dims| && forall i :: 0 <= i < |dims| ==> ParseSubslice(dims[i], evalInt) == Ok(r.value[i])
    ensures r.Failure? ==> exists i :: 0 <= i < |dims| && ParseSubslice(dims[i], evalInt) == Failure(r.error)
                                       && forall j :: 0 <= j < i ==> ParseSubslice(dims[j], evalInt).Ok?
  {
    if |dims| == 0 then Ok([])
    else
      var first :- ParseSubslice(dims[0], evalInt);
      var others :- ParseAll(dims[1..], evalInt);
      assert forall i :: 1 <= i < |dims| ==> dims[i] == dims[1..][i - 1];
      Ok([first] + others)
  }

  /** `parse_slice(full_slice)`: one slice per comma-separated dimension. */
  function ParseSlice(full: string, evalInt: string -> Option<int>): (r: Result<seq<Slice>, Error>)
    ensures r.Ok? ==> |r.value| == |Split(full, ',')| >= 1
  {
    ParseAll(Split(full, ','), evalInt)
  }

  /** `parse_var(var)`: the variable expression and its slices; no slice
      text, or an empty one, means no slices. */
  function ParseVar(text: string, evalInt: string -> Option<int>): (r: Result<(string, seq<Slice>), Error>)
    ensures r.Ok? ==> r.value.0 == SplitVariableAndSlice(text).0
    ensures r.Ok? && |r.value.1| > 0 ==> SplitVariableAndSlice(text).1.Some?
  {
    var (base, sliceText) := SplitVariableAndSlice(text);
    if sliceText.None? || sliceText.value == "" then Ok((base, []))
    else
      var slices :- ParseSlice(sliceText.value, evalInt);
      Ok((base, slices))
  }

  /** `extract_var(var, type_set)` before the final `np.squeeze(np.array(...))`:
      parse, evaluate the variable, pick the handler of its type and extract. */
  function ExtractVarSpec(text: string, gdb: Inferior, hs: seq<HandlerKind>): (r: Result<Out, Error>)
    ensures r.Ok? ==> ParseVar(text, gdb.evalInt).Ok? && gdb.evalValue(ParseVar(text, gdb.evalInt).value.0).Some?
  {
    var parsed :- ParseVar(text, gdb.evalInt);
    var (base, slices) := parsed;
    var data := gdb.evalValue(base);
    if data.None? then Failure(VariableError(text))
    else
      var k :- Dispatch(hs, data.value.ty);
      ExtractAllSpec(hs, k, data.value, slices, gdb.mem)
  }

  /** `extract_var(var, type_set)` on a type set object. */
  method ExtractVar(text: string, gdb: Inferior, typeSet: TypeSet) returns (r: Result<Out, Error>)
    ensures r == ExtractVarSpec(text, gdb, typeSet.handlers)
  {
    var parsed :- ParseVar(text, gdb.evalInt);
    var (base, slices) := parsed;
    var data := gdb.evalValue(base);
    if data.None? {
      return Failure(VariableError(text));
    }
    var handler :- typeSet.GetHandler(data.value.ty);
    r := handler.ExtractAll(data.value, slices, gdb.mem);
  }

  // ---------------------------------------------------------------------
  // Parsing: round trips and the special cases

  /** An integer evaluator that reads every decimal literal as its value,
      as gdb does. */
  ghost predicate ReadsDecimals(evalInt: string -> Option<int>) {
    forall n :: evalInt(Decimal(n)) == Some(n)
  }

  /** One slice component written out: nothing for an absent one. */
  function Component(c: Option<int>): string {
    if c.None? then "" else Decimal(c.value)
  }

  /** A slice written out in full as `start:stop:step`. */
  function FormatSlice(s: Slice): string {
    Component(s.start) + ":" + Component(s.stop) + ":" + Component(s.step)
  }

  /** Slices written out, separated by commas. */
  function FormatSlices(ss: seq<Slice>): string {
    Join(seq(|ss|, i requires 0 <= i < |ss| => FormatSlice(ss[i])), ',')
  }

  lemma DecimalLacks(n: int, c: char)
    requires !IsDigit(c) && c != '-'
    ensures c !in Decimal(n)
  {
  }

  lemma FormatSliceLacks(s: Slice, c: char)
    requires !IsDigit(c) && c != '-' && c != ':'
    ensures c !in FormatSlice(s)
  {
    if s.start.Some? { DecimalLacks(s.start.value, c); }
    if s.stop.Some? { DecimalLacks(s.stop.value, c); }
    if s.step.Some? { DecimalLacks(s.step.value, c); }
  }

  lemma {:induction false} JoinLacks(parts: seq<string>, sep: char, c: char)
    requires c != sep && forall i :: 0 <= i < |parts| ==> c !in parts[i]
    ensures c !in Join(parts, sep)
  {
    if |parts| > 1 {
      JoinLacks(parts[1..], sep, c);
    }
  }

  lemma FormatSlicesLacks(ss: seq<Slice>, c: char)
    requires !IsDigit(c) && c != '-' && c != ':' && c != ','
    ensures c !in FormatSlices(ss)
  {
    var parts := seq(|ss|, i requires 0 <= i < |ss| => FormatSlice(ss[i]));
    forall i | 0 <= i < |ss|
      ensures c !in parts[i]
    {
      FormatSliceLacks(ss[i], c);
    }
    JoinLacks(parts, ',', c);
  }

  /** A slice written out in full parses back to itself. */
  lemma ParseSubsliceRoundTrip(s: Slice, evalInt: string -> Option<int>)
    requires ReadsDecimals(evalInt)
    ensures ParseSubslice(FormatSlice(s), evalInt) == Ok(s)
  {
    FormatSliceSplits(s);
    ComponentReadsBack(s.start, evalInt);
    ComponentReadsBack(s.stop, evalInt);
    ComponentReadsBack(s.step, evalInt);
  }

  lemma ComponentReadsBack(c: Option<int>, evalInt: string -> Option<int>)
    requires ReadsDecimals(evalInt)
    ensures Component(c) == "" <==> c.None?
    ensures c.Some? ==> evalInt(Component(c)) == c
    ensures ComponentValue(Component(c), evalInt) == c
  {
  }

  /** The three components of a written-out slice split apart again. */
  lemma FormatSliceSplits(s: Slice)
    ensures Split(FormatSlice(s), ':') == [Component(s.start), Component(s.stop), Component(s.step)]
  {
    var parts := [Component(s.start), Component(s.stop), Component(s.step)];
    assert parts[1..] == [Component(s.stop), Component(s.step)];
    assert parts[1..][1..] == [Component(s.step)];
    assert Join(parts[1..][1..], ':') == Component(s.step);
    assert Join(parts[1..], ':') == Component(s.stop) + [':'] + Component(s.step);
    assert Join(parts, ':') == Component(s.start) + [':'] + (Component(s.stop) + [':'] + Component(s.step));
    assert Join(parts, ':') == FormatSlice(s);
    if s.start.Some? { DecimalLacks(s.start.value, ':'); }
    if s.stop.Some? { DecimalLacks(s.stop.value, ':'); }
    if s.step.Some? { DecimalLacks(s.step.value, ':'); }
    SplitJoin(parts, ':');
  }

  /** `a:b` written out (an absent bound as nothing) parses back to the
      slice without a step. */
  lemma ParsePairRoundTrip(a: Option<int>, b: Option<int>, evalInt: string -> Option<int>)
    requires ReadsDecimals(evalInt)
    ensures ParseSubslice(Component(a) + ":" + Component(b), evalInt) == Ok(Slice(a, b, None))
  {
    var parts := [Component(a), Component(b)];
    assert parts[1..] == [Component(b)];
    assert Join(parts, ':') == Component(a) + ":" + Component(b);
    if a.Some? { DecimalLacks(a.value, ':'); }
    if b.Some? { DecimalLacks(b.value, ':'); }
    SplitJoin(parts, ':');
    ComponentReadsBack(a, evalInt);
    ComponentReadsBack(b, evalInt);
  }

  /** `base[a:b]` parses into `base` and the one slice `a:b`. */
  lemma ParseVarPair(base: string, a: int, b: int, evalInt: string -> Option<int>)
    requires ReadsDecimals(evalInt)
    ensures ParseVar(base + "[" + Decimal(a) + ":" + Decimal(b) + "]", evalInt) == Ok((base, [Slice(Some(a), Some(b), None)]))
  {
    var t := Decimal(a) + ":" + Decimal(b);
    DecimalLacks(a, '['); DecimalLacks(b, '[');
    DecimalLacks(a, ']'); DecimalLacks(b, ']');
    DecimalLacks(a, ','); DecimalLacks(b, ',');
    assert base + "[" + Decimal(a) + ":" + Decimal(b) + "]" == base + "[" + t + "]";
    SplitVariableRoundTrip(base, t);
    SplitNoSeparator(t, ',');
    ParsePairRoundTrip(Some(a), Some(b), evalInt);
    ParseAllOk([t], [Slice(Some(a), Some(b), None)], evalInt);
  }

  lemma ParseAllOk(dims: seq<string>, ss: seq<Slice>, evalInt: string -> Option<int>)
    requires |dims| == |ss| && forall i :: 0 <= i < |dims| ==> ParseSubslice(dims[i], evalInt) == Ok(ss[i])
    ensures ParseAll(dims, evalInt) == Ok(ss)
  {
    var r := ParseAll(dims, evalInt);
    assert r.Ok?;
    assert r.value == ss;
  }

  /** A non-empty list of slices written out parses back to itself. */
  lemma ParseSliceRoundTrip(ss: seq<Slice>, evalInt: string -> Option<int>)
    requires |ss| >= 1 && ReadsDecimals(evalInt)
    ensures ParseSlice(FormatSlices(ss), evalInt) == Ok(ss)
  {
    var parts := seq(|ss|, i requires 0 <= i < |ss| => FormatSlice(ss[i]));
    forall i | 0 <= i < |ss|
      ensures ',' !in parts[i] && ParseSubslice(parts[i], evalInt) == Ok(ss[i])
    {
      FormatSliceLacks(ss[i], ',');
      ParseSubsliceRoundTrip(ss[i], evalInt);
    }
    SplitJoin(parts, ',');
    ParseAllOk(parts, ss, evalInt);
  }

  /** `var[slices]` parses back into the variable and its slices, whatever
      brackets the variable itself holds; `var[]` has no slices. */
  lemma ParseVarRoundTrip(base: string, ss: seq<Slice>, evalInt: string -> Option<int>)
    requires ReadsDecimals(evalInt)
    ensures ParseVar(base + "[" + FormatSlices(ss) + "]", evalInt) == Ok((base, ss))
  {
    var text := FormatSlices(ss);
    FormatSlicesLacks(ss, '[');
    FormatSlicesLacks(ss, ']');
    SplitVariableRoundTrip(base, text);
    if |ss| > 0 {
      ParseSliceRoundTrip(ss, evalInt);
      FormatSlicesNonEmpty(ss);
    } else {
      assert text == "";
    }
  }

  lemma FormatSlicesNonEmpty(ss: seq<Slice>)
    requires |ss| > 0
    ensures FormatSlices(ss) != ""
  {
    var parts := seq(|ss|, i requires 0 <= i < |ss| => FormatSlice(ss[i]));
    assert |parts[0]| > 0;
    if |ss| > 1 {
      assert Join(parts, ',') == parts[0] + [','] + Join(parts[1..], ',');
    }
  }

  /** A variable without a bracket pair has no slices. */
  lemma NoBracketsNoSlices(text: string, evalInt: string -> Option<int>)
    requires '[' !in text || ']' !in text
    ensures ParseVar(text, evalInt) == Ok((text, []))
  {
  }

  /** A single index `k` is the slice `k:k+1`: within the bounds it selects
      element `k`, and a negative `k` counts from the end, except that `-1`
      becomes the empty slice `-1:0`, and an index below `-length` selects
      nothing instead of raising. */
  lemma SingleIndex(k: int, length: nat, evalInt: string -> Option<int>)
    requires evalInt(Decimal(k)) == Some(k)
    ensures ParseSubslice(Decimal(k), evalInt) == Ok(Slice(Some(k), Some(k + 1), None))
    ensures 0 <= k < length ==> IndexRange(Slice(Some(k), Some(k + 1), None), Some(length)) == Ok([k])
    ensures 0 <= k + length && k < -1 ==> IndexRange(Slice(Some(k), Some(k + 1), None), Some(length)) == Ok([k + length])
    ensures k == -1 ==> IndexRange(Slice(Some(k), Some(k + 1), None), Some(length)) == Ok([])
    ensures k + length < 0 ==> IndexRange(Slice(Some(k), Some(k + 1), None), Some(length)) == Ok([])
  {
    DecimalLacks(k, ':');
    SplitNoSeparator(Decimal(k), ':');
    if 0 <= k < length {
      UnitSliceSelectsOne(k, Some(length));
    } else if k < 0 {
      NegativeUnitSlice(k, length);
    }
  }

  /** An empty subslice (as in `x[1,]`) fails on `None + 1`. */
  lemma EmptySubslice(evalInt: string -> Option<int>)
    ensures ParseSubslice("", evalInt) == Failure(NoneArithmetic(""))
  {
  }

  /** More than two colons, or a component gdb cannot evaluate, is a
      syntax error naming the subslice. */
  lemma SubsliceSyntaxErrors(sub: string, evalInt: string -> Option<int>)
    ensures |Split(sub, ':')| > 3 ==> ParseSubslice(sub, evalInt) == Failure(SliceSyntaxError(sub))
    ensures (exists i :: 0 <= i < |Split(sub, ':')| && Split(sub, ':')[i] != "" && evalInt(Split(sub, ':')[i]).None?) ==>
              ParseSubslice(sub, evalInt) == Failure(SliceSyntaxError(sub))
  {
  }

  /** A variable gdb cannot evaluate is reported with the whole text. */
  lemma UnknownVariable(text: string, gdb: Inferior, hs: seq<HandlerKind>)
    requires ParseVar(text, gdb.evalInt).Ok? && gdb.evalValue(ParseVar(text, gdb.evalInt).value.0).None?
    ensures ExtractVarSpec(text, gdb, hs) == Failure(VariableError(text))
  {
  }

  // ---------------------------------------------------------------------
  // End to end

  /** The int32 outputs for `xs[a..b]`. */
  function IntLeaves(xs: seq<int>, a: int, b: int): seq<Out>
    requires 0 <= a <= b <= |xs|
  {
    seq(b - a, j requires 0 <= j < b - a => Leaf(IntPrim(Dtype(false, 4), xs[a + j])))
  }

  /** `v[a:b]` on a `std::vector<int>` named `v` whose elements `xs` lie in
      memory gives the int32 values `xs[a]`, ..., `xs[b - 1]`, in any type
      set that hands the vector and its elements to the StdVector and
      Integral handlers (as the default set does, by DefaultDispatchVector
      and DefaultDispatchIntegral). */
  lemma VectorSliceExtraction(hs: seq<HandlerKind>, base: string, name: string, more: seq<TemplateArg>, xs: seq<int>,
                              start: int, a: int, b: int, gdb: Inferior)
    requires ReadsDecimals(gdb.evalInt)
    requires Dispatch(hs, Named(name, [TypeArg(Named("int", []))] + more)) == Ok(StdVector)
    requires Dispatch(hs, Named("int", [])) == Ok(Integral)
    requires gdb.evalValue(base) == Some(Value(Named(name, [TypeArg(Named("int", []))] + more), VectorImpl(start, start + |xs|)))
    requires forall i :: 0 <= i < |xs| ==> start + i in gdb.mem && gdb.mem[start + i] == Raw(xs[i])
    requires 0 <= a <= b <= |xs|
    ensures ExtractVarSpec(base + "[" + Decimal(a) + ":" + Decimal(b) + "]", gdb, hs)
         == Ok(Node(IntLeaves(xs, a, b)))
  {
    var sl := Slice(Some(a), Some(b), None);
    var text := base + "[" + Decimal(a) + ":" + Decimal(b) + "]";
    var v := Value(Named(name, [TypeArg(Named("int", []))] + more), VectorImpl(start, start + |xs|));
    ParseVarPair(base, a, b, gdb.evalInt);
    assert ParseVar(text, gdb.evalInt) == Ok((base, [sl]));
    ExtractVarSteps(text, gdb, hs, base, [sl], v, StdVector);
    assert ExtractVarSpec(text, gdb, hs) == ExtractAllSpec(hs, StdVector, v, [sl], gdb.mem);
    IntVectorSlice(hs, name, more, xs, start, a, b, gdb.mem);
  }

  /** `v[a:b]` on a `std::vector<int>` through the default type set. */
  lemma DefaultVectorSliceExtraction(base: string, name: string, more: seq<TemplateArg>, xs: seq<int>,
                                     start: int, a: int, b: int, gdb: Inferior)
    requires ReadsDecimals(gdb.evalInt) && StartsWith(name, "std::vector")
    requires gdb.evalValue(base) == Some(Value(Named(name, [TypeArg(Named("int", []))] + more), VectorImpl(start, start + |xs|)))
    requires forall i :: 0 <= i < |xs| ==> start + i in gdb.mem && gdb.mem[start + i] == Raw(xs[i])
    requires 0 <= a <= b <= |xs|
    ensures ExtractVarSpec(base + "[" + Decimal(a) + ":" + Decimal(b) + "]", gdb, DefaultHandlers)
         == Ok(Node(IntLeaves(xs, a, b)))
  {
    var t := Named(name, [TypeArg(Named("int", []))] + more);
    assert ArgSpelling(t.args[0]) == "int";
    DefaultDispatchVector(t);
    assert Dispatch(DefaultHandlers, t) == Ok(StdVector);
    assert "int" in IntegralSpellings;
    DefaultDispatchIntegral(Named("int", []));
    assert Dispatch(DefaultHandlers, Named("int", [])) == Ok(Integral);
    VectorSliceExtraction(DefaultHandlers, base, name, more, xs, start, a, b, gdb);
  }

  /** Extraction from text is parsing, evaluating, dispatching and
      extracting, in that order. */
  lemma ExtractVarSteps(text: string, gdb: Inferior, hs: seq<HandlerKind>, base: string, slices: seq<Slice>,
                        v: Value, k: HandlerKind)
    requires ParseVar(text, gdb.evalInt) == Ok((base, slices))
    requires gdb.evalValue(base) == Some(v) && Dispatch(hs, v.ty) == Ok(k)
    ensures ExtractVarSpec(text, gdb, hs) == ExtractAllSpec(hs, k, v, slices, gdb.mem)
  {
  }

  /** The same at the level of the vector handler. */
  lemma IntVectorSlice(hs: seq<HandlerKind>, name: string, more: seq<TemplateArg>, xs: seq<int>, start: int,
                       a: int, b: int, mem: Memory)
    requires Dispatch(hs, Named("int", [])) == Ok(Integral)
    requires forall i :: 0 <= i < |xs| ==> start + i in mem && mem[start + i] == Raw(xs[i])
    requires 0 <= a <= b <= |xs|
    ensures var v := Value(Named(name, [TypeArg(Named("int", []))] + more), VectorImpl(start, start + |xs|));
            ExtractAllSpec(hs, StdVector, v, [Slice(Some(a), Some(b), None)], mem) == Ok(Node(IntLeaves(xs, a, b)))
  {
    var v := Value(Named(name, [TypeArg(Named("int", []))] + more), VectorImpl(start, start + |xs|));
    var sl := Slice(Some(a), Some(b), None);
    var ct := Named("int", []);
    InBoundsSlice(a, b, |xs|);
    IntVectorSliceOk(hs, name, more, xs, start, a, b, mem);
    ContainerSelects(hs, StdVector, v, [sl], mem);
    assert ContainedTypeOf(StdVector, v.ty) == Ok(Some(ct));
    var o := ExtractAllSpec(hs, StdVector, v, [sl], mem).value;
    forall j | 0 <= j < b - a
      ensures o.children[j] == IntLeaves(xs, a, b)[j]
    {
      assert Load(mem, start + (a + j)) == Ok(Raw(xs[a + j]));
      IntVectorElement(hs, v, xs, start, a + j, mem);
    }
    assert o.children == IntLeaves(xs, a, b);
  }

  /** Every element a:b selects can be read, so the slice succeeds. */
  lemma IntVectorSliceOk(hs: seq<HandlerKind>, name: string, more: seq<TemplateArg>, xs: seq<int>, start: int,
                         a: int, b: int, mem: Memory)
    requires Dispatch(hs, Named("int", [])) == Ok(Integral)
    requires forall i :: 0 <= i < |xs| ==> start + i in mem && mem[start + i] == Raw(xs[i])
    requires 0 <= a <= b <= |xs|
    ensures var v := Value(Named(name, [TypeArg(Named("int", []))] + more), VectorImpl(start, start + |xs|));
            ExtractAllSpec(hs, StdVector, v, [Slice(Some(a), Some(b), None)], mem).Ok?
  {
    var v := Value(Named(name, [TypeArg(Named("int", []))] + more), VectorImpl(start, start + |xs|));
    var sl := Slice(Some(a), Some(b), None);
    var ct := Named("int", []);
    InBoundsSlice(a, b, |xs|);
    var ids := seq(b - a, j requires 0 <= j < b - a => a + j);
    assert ShapeOf(StdVector, v) == Ok([Some(|xs|)]);
    assert ContainedTypeOf(StdVector, v.ty) == Ok(Some(ct));
    forall i | i in ids
      ensures ElementRepr(StdVector, v, [i], mem).Ok?
      ensures ExtractAllSpec(hs, Integral, Value(ct, ElementRepr(StdVector, v, [i], mem).value), [], mem).Ok?
    {
      var j :| 0 <= j < b - a && ids[j] == i;
      assert Load(mem, start + i) == Ok(Raw(xs[i]));
      IntVectorElement(hs, v, xs, start, i, mem);
    }
    ContainerSucceeds(hs, StdVector, v, ct, Integral, sl, [], mem);
    assert [sl] + [] == [sl];
  }

  /** One element of a `std::vector<int>` laid out in memory. */
  lemma IntVectorElement(hs: seq<HandlerKind>, v: Value, xs: seq<int>, start: int, i: int, mem: Memory)
    requires v.repr == VectorImpl(start, start + |xs|) && 0 <= i < |xs|
    requires Load(mem, start + i) == Ok(Raw(xs[i]))
    ensures ElementRepr(StdVector, v, [i], mem) == Ok(Raw(xs[i]))
    ensures ExtractAllSpec(hs, Integral, Value(Named("int", []), Raw(xs[i])), [], mem) == Ok(Leaf(IntPrim(Dtype(false, 4), xs[i])))
  {
    IntDtype("int");
    ScalarExtraction(hs, Integral, Value(Named("int", []), Raw(xs[i])), [], mem);
  }
}
