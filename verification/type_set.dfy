/** Choosing a handler for a type: the first registered handler class that
    accepts the type wins. */
module TypeSets {
  import opened Wrappers
  import opened Exceptions
  import opened Text
  import opened Gdb
  import opened StdTypes

  /** `type_set.get_handler(gdb_type)` over the handler classes `hs`, in the
      order they were registered. A `can_handle` that raises stops the
      search with its error. */
  function Dispatch(hs: seq<HandlerKind>, t: GdbType): (r: Result<HandlerKind, Error>)
    ensures r.Ok? ==> r.value in hs && CanHandle(r.value, t) == Ok(true)
  {
    if |hs| == 0 then Failure(UnknownTypeError(Spelling(t)))
    else
      var accepted :- CanHandle(hs[0], t);
      if accepted then Ok(hs[0]) else Dispatch(hs[1..], t)
  }

  /** The handler chosen is the first one that accepts the type, provided
      every handler before it answered no. */
  lemma {:induction false} DispatchFirstMatch(hs: seq<HandlerKind>, t: GdbType, i: nat)
    requires i < |hs| && CanHandle(hs[i], t) == Ok(true)
    requires forall j :: 0 <= j < i ==> CanHandle(hs[j], t) == Ok(false)
    ensures Dispatch(hs, t) == Ok(hs[i])
  {
    if i > 0 {
      assert CanHandle(hs[0], t) == Ok(false);
      DispatchFirstMatch(hs[1..], t, i - 1);
    }
  }

  /** The type is reported unknown exactly when every handler answers no. */
  lemma {:induction false} DispatchUnknown(hs: seq<HandlerKind>, t: GdbType)
    ensures Dispatch(hs, t) == Failure(UnknownTypeError(Spelling(t))) <==>
            forall j :: 0 <= j < |hs| ==> CanHandle(hs[j], t) == Ok(false)
  {
    if |hs| > 0 {
      DispatchUnknown(hs[1..], t);
      if CanHandle(hs[0], t) == Ok(false) {
        assert forall j :: 1 <= j < |hs| ==> hs[j] == hs[1..][j - 1];
      }
    }
  }

  /** Any other error is the error of the first handler that raised, all
      handlers before it having answered no. */
  lemma {:induction false} DispatchRaises(hs: seq<HandlerKind>, t: GdbType)
    requires Dispatch(hs, t).Failure? && Dispatch(hs, t) != Failure(UnknownTypeError(Spelling(t)))
    ensures exists i :: 0 <= i < |hs| && CanHandle(hs[i], t) == Failure(Dispatch(hs, t).error)
                        && forall j :: 0 <= j < i ==> CanHandle(hs[j], t) == Ok(false)
  {
    if CanHandle(hs[0], t).Failure? {
      assert CanHandle(hs[0], t) == Failure(Dispatch(hs, t).error);
    } else {
      DispatchRaises(hs[1..], t);
      var i :| 0 <= i < |hs[1..]| && CanHandle(hs[1..][i], t) == Failure(Dispatch(hs, t).error)
               && forall j :: 0 <= j < i ==> CanHandle(hs[1..][j], t) == Ok(false);
      assert forall j :: 1 <= j < i + 1 ==> hs[j] == hs[1..][j - 1];
      assert CanHandle(hs[i + 1], t) == Failure(Dispatch(hs, t).error);
    }
  }

  /** Registering another handler only affects the types no earlier handler
      handled (or raised on). */
  lemma {:induction false} RegisterPreservesDispatch(hs: seq<HandlerKind>, h: HandlerKind, t: GdbType)
    ensures Dispatch(hs + [h], t) ==
            if Dispatch(hs, t) == Failure(UnknownTypeError(Spelling(t))) then Dispatch([h], t) else Dispatch(hs, t)
  {
    if |hs| > 0 {
      assert (hs + [h])[0] == hs[0];
      assert (hs + [h])[1..] == hs[1..] + [h];
      RegisterPreservesDispatch(hs[1..], h, t);
    }
  }

  /** The two vector handlers may be registered in either order. */
  lemma {:induction false} VectorOrderIrrelevant(p: seq<HandlerKind>, q: seq<HandlerKind>, t: GdbType)
    ensures Dispatch(p + [StdVector, StdVectorBool] + q, t) == Dispatch(p + [StdVectorBool, StdVector] + q, t)
  {
    var a := p + [StdVector, StdVectorBool] + q;
    var b := p + [StdVectorBool, StdVector] + q;
    if |p| > 0 {
      assert a[0] == b[0] == p[0];
      assert a[1..] == p[1..] + [StdVector, StdVectorBool] + q;
      assert b[1..] == p[1..] + [StdVectorBool, StdVector] + q;
      VectorOrderIrrelevant(p[1..], q, t);
    } else {
      VectorHandlersPartition(t);
      assert a[0] == StdVector && a[1] == StdVectorBool && a[2..] == q;
      assert b[0] == StdVectorBool && b[1] == StdVector && b[2..] == q;
      assert a[1..][1..] == q && b[1..][1..] == q;
    }
  }

  /** The handlers of the default type set, in registration order
      (FortranArray is not part of this model). */
  const DefaultHandlers: seq<HandlerKind> :=
    [StdVector, StdVectorBool, StdArray, Pointer, Array, Double, Float,
     StdComplexDouble, StdComplexFloat, Integral, Bool]

  /** Every handler kind appears once in the default set. */
  lemma DefaultHandlersComplete(k: HandlerKind)
    ensures k in DefaultHandlers
  {
  }

  lemma StartsWithHead(s: string, p: string)
    requires |p| > 0 && StartsWith(s, p)
    ensures |s| > 0 && s[0] == p[0]
  {
    assert s[..|p|][0] == s[0];
  }

  lemma StartsWithTrans(s: string, m: string, p: string)
    requires StartsWith(s, m) && StartsWith(m, p)
    ensures StartsWith(s, p)
  {
    assert s[..|p|] == s[..|m|][..|p|];
  }

  /** The default set hands every integer type to the Integral handler. */
  lemma DefaultDispatchIntegral(t: GdbType)
    requires t.Named? && t.name in IntegralSpellings
    ensures Dispatch(DefaultHandlers, t) == Ok(Integral)
  {
    var s := Spelling(t);
    if StartsWith(s, "std::vector") { StartsWithHead(s, "std::vector"); }
    if StartsWith(s, "std::array") { StartsWithHead(s, "std::array"); }
    DispatchFirstMatch(DefaultHandlers, t, 9);
  }

  /** The default set hands a `std::vector` to one of the two vector
      handlers, chosen by the spelling of its element type. */
  lemma DefaultDispatchVector(t: GdbType)
    requires t.Named? && StartsWith(t.name, "std::vector") && |t.args| > 0
    ensures Dispatch(DefaultHandlers, t) == if ArgSpelling(t.args[0]) == "bool" then Ok(StdVectorBool) else Ok(StdVector)
  {
    if ArgSpelling(t.args[0]) == "bool" {
      DispatchFirstMatch(DefaultHandlers, t, 1);
    }
  }

  lemma ArrayIsNoVector(s: string)
    requires StartsWith(s, "std::array")
    ensures !StartsWith(s, "std::vector")
  {
    assert s[..10][5] == s[5];
  }

  /** A pointer type's spelling starts with a word free of spaces and
      stars only when its target's does. */
  lemma PointerSpelling(x: GdbType, p: string)
    requires ' ' !in p && '*' !in p
    ensures StartsWith(Spelling(PointerTo(x)), p) ==> StartsWith(Spelling(x), p)
  {
    var s := Spelling(PointerTo(x));
    var n := |Spelling(x)|;
    assert s == Spelling(x) + PointerMark(x);
    if n >= |p| {
      assert s[..|p|] == Spelling(x)[..|p|];
    } else if |p| <= |s| {
      assert s[..|p|][n] == PointerMark(x)[0];
      assert p[n] in p;
    }
  }

  /** A pointer is handed to the Pointer handler unless its spelling starts
      like a standard container's. */
  lemma DefaultDispatchPointer(x: GdbType)
    requires !StartsWith(Spelling(x), "std::vector") && !StartsWith(Spelling(x), "std::array")
    ensures Dispatch(DefaultHandlers, PointerTo(x)) == Ok(Pointer)
  {
    PointerNotContainer(x);
    PointerRefused(PointerTo(x));
    DefaultDispatchFourth(PointerTo(x));
  }

  /** Nor is a pointer to it spelled like one. */
  lemma PointerNotContainer(x: GdbType)
    requires !StartsWith(Spelling(x), "std::vector") && !StartsWith(Spelling(x), "std::array")
    ensures !StartsWith(Spelling(PointerTo(x)), "std::vector") && !StartsWith(Spelling(PointerTo(x)), "std::array")
  {
    PointerSpelling(x, "std::vector");
    PointerSpelling(x, "std::array");
  }

  /** The three container handlers refuse a pointer not spelled like a
      standard container, and the Pointer handler accepts it. */
  lemma PointerRefused(t: GdbType)
    requires t.PointerTo?
    requires !StartsWith(Spelling(t), "std::vector") && !StartsWith(Spelling(t), "std::array")
    ensures CanHandle(StdVector, t) == Ok(false) && CanHandle(StdVectorBool, t) == Ok(false)
    ensures CanHandle(StdArray, t) == Ok(false) && CanHandle(Pointer, t) == Ok(true)
  {
  }

  /** A type the three container handlers refuse and the Pointer handler
      accepts goes to the Pointer handler. */
  lemma DefaultDispatchFourth(t: GdbType)
    requires CanHandle(StdVector, t) == Ok(false) && CanHandle(StdVectorBool, t) == Ok(false)
    requires CanHandle(StdArray, t) == Ok(false) && CanHandle(Pointer, t) == Ok(true)
    ensures Dispatch(DefaultHandlers, t) == Ok(Pointer)
  {
    DispatchFirstMatch(DefaultHandlers, t, 3);
  }

  /** A pointer to a `std::vector` is spelled `std::vector<...> *`, so the
      vector handlers claim it, and reading its template argument fails:
      such a pointer cannot be extracted. */
  lemma DefaultDispatchPointerToVector(x: GdbType)
    requires StartsWith(Spelling(x), "std::vector")
    ensures Dispatch(DefaultHandlers, PointerTo(x)) == Failure(TemplateArgumentError(Spelling(PointerTo(x)), 0))
  {
    PointerKeepsPrefix(x, "std::vector");
  }

  /** Likewise a pointer to a `std::array` goes to the StdArray handler,
      not the Pointer handler. */
  lemma DefaultDispatchPointerToArray(x: GdbType)
    requires StartsWith(Spelling(x), "std::array")
    ensures Dispatch(DefaultHandlers, PointerTo(x)) == Ok(StdArray)
  {
    PointerKeepsPrefix(x, "std::array");
    ArrayClaimed(PointerTo(x));
    DefaultDispatchThird(PointerTo(x));
  }

  /** A type the two vector handlers refuse and the StdArray handler
      accepts goes to the StdArray handler. */
  lemma DefaultDispatchThird(t: GdbType)
    requires CanHandle(StdVector, t) == Ok(false) && CanHandle(StdVectorBool, t) == Ok(false)
    requires CanHandle(StdArray, t) == Ok(true)
    ensures Dispatch(DefaultHandlers, t) == Ok(StdArray)
  {
    DispatchFirstMatch(DefaultHandlers, t, 2);
  }

  /** A pointer's spelling starts with whatever its target's does. */
  lemma PointerKeepsPrefix(x: GdbType, p: string)
    requires StartsWith(Spelling(x), p)
    ensures StartsWith(Spelling(PointerTo(x)), p)
  {
    SpellingExtendsTarget(PointerTo(x));
    StartsWithTrans(Spelling(PointerTo(x)), Spelling(x), p);
  }

  /** A type spelled like a `std::array` is refused by the vector handlers
      and accepted by the StdArray handler. */
  lemma ArrayClaimed(t: GdbType)
    requires StartsWith(Spelling(t), "std::array")
    ensures CanHandle(StdVector, t) == Ok(false) && CanHandle(StdVectorBool, t) == Ok(false)
    ensures CanHandle(StdArray, t) == Ok(true)
  {
    ArrayIsNoVector(Spelling(t));
  }
}
