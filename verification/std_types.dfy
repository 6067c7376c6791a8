/** The built-in type handlers: how each one recognises a gdb type, the
    shape and element type it reports, and how it reads one element or
    one scalar out of a value. */
module StdTypes {
  import opened Wrappers
  import opened Exceptions
  import opened Text
  import opened Gdb
  import Util

  /** The handler classes shipped with the library (FortranArray aside). */
  datatype HandlerKind =
    | StdVector | StdVectorBool | StdArray | Pointer | Array
    | Double | Float | StdComplexDouble | StdComplexFloat | Integral | Bool

  /** The handlers derived from ScalarTypeHandler: shape `()` and no
      contained type. */
  predicate IsScalarKind(k: HandlerKind) {
    k.Double? || k.Float? || k.StdComplexDouble? || k.StdComplexFloat? || k.Integral? || k.Bool?
  }

  /** The spellings the Integral handler accepts. */
  const IntegralSpellings: seq<string> := [
    "char", "short", "int", "long", "long long",
    "unsigned char", "unsigned short", "unsigned int", "unsigned long", "unsigned long long"
  ]

  /** `handler.can_handle(gdb_type)`. The two vector handlers read the first
      template argument of anything spelled `std::vector...`, which raises
      when that type is not a template instance. */
  function CanHandle(k: HandlerKind, t: GdbType): (r: Result<bool, Error>)
    ensures r.Failure? ==> (k.StdVector? || k.StdVectorBool?) && StartsWith(Spelling(t), "std::vector")
    ensures IsScalarKind(k) && r == Ok(true) ==> t.Named?
  {
    match k
    case StdVector =>
      if StartsWith(Spelling(t), "std::vector") then
        var a :- TemplateArgument(t, 0);
        Ok(ArgSpelling(a) != "bool")
      else Ok(false)
    case StdVectorBool =>
      if StartsWith(Spelling(t), "std::vector") then
        var a :- TemplateArgument(t, 0);
        Ok(ArgSpelling(a) == "bool")
      else Ok(false)
    case StdArray => Ok(StartsWith(Spelling(t), "std::array"))
    case Pointer => Ok(t.PointerTo?)
    case Array => Ok(t.ArrayOf?)
    case Double => Ok(t.Named? && Spelling(t) == "double")
    case Float => Ok(t.Named? && Spelling(t) == "float")
    case StdComplexDouble => Ok(t.Named? && Spelling(t) == "std::complex<double>")
    case StdComplexFloat => Ok(t.Named? && Spelling(t) == "std::complex<float>")
    case Integral => Ok(t.Named? && Spelling(t) in IntegralSpellings)
    case Bool => Ok(t.Named? && Spelling(t) == "bool")
  }

  /** The number of dimensions a handler reports. */
  function Rank(k: HandlerKind): nat {
    if IsScalarKind(k) then 0 else 1
  }

  /** `handler.shape(gdb_value)`; None marks a dimension of unknown size. */
  function ShapeOf(k: HandlerKind, v: Value): (r: Result<seq<Option<int>>, Error>)
    ensures r.Ok? ==> |r.value| == Rank(k)
    ensures IsScalarKind(k) ==> r == Ok([])
    ensures r.Ok? && |r.value| == 1 ==> (r.value[0].None? <==> k.Pointer?)
    ensures k.Pointer? || IsScalarKind(k) ==> r.Ok?
  {
    match k
    case StdVector =>
      (match v.repr
       case VectorImpl(start, finish) => Ok([Some(finish - start)])
       case _ => Failure(NoSuchMember("_M_impl")))
    case StdVectorBool =>
      (match v.repr
       case BitVectorImpl(startWord, finishWord, finishOffset) =>
         Ok([Some(64 * (finishWord - startWord) + finishOffset)])
       case _ => Failure(NoSuchMember("_M_impl")))
    case StdArray =>
      var a :- TemplateArgument(v.ty, 1);
      (match a
       case ValueArg(n) => Ok([Some(n)])
       case TypeArg(_) => Failure(NotAnInteger))
    case Pointer => Ok([None])
    case Array =>
      var high :- RangeHigh(v.ty);
      Ok([Some(high + 1)])
    case _ => Ok([])
  }

  /** `handler.contained_type(gdb_value)`, which depends only on the
      value's type: None exactly for the scalar handlers, and otherwise a
      part of the container's own type. */
  function ContainedTypeOf(k: HandlerKind, t: GdbType): (r: Result<Option<GdbType>, Error>)
    ensures r == Ok(None) <==> IsScalarKind(k)
    ensures r.Ok? && r.value.Some? && (k.Pointer? || k.Array?) ==> !t.Named? && r.value.value == t.target
    ensures r.Ok? && r.value.Some? && !(k.Pointer? || k.Array?) ==> t.Named? && |t.args| > 0 && t.args[0] == TypeArg(r.value.value)
  {
    match k
    case StdVector | StdVectorBool | StdArray =>
      var a :- TemplateArgument(t, 0);
      (match a
       case TypeArg(x) => Ok(Some(x))
       case ValueArg(_) => Failure(NotAType))
    case Pointer | Array =>
      var x :- Target(t);
      Ok(Some(x))
    case _ => Ok(None)
  }

  /** `2^j` */
  function Pow2(j: nat): (r: nat)
    ensures r >= 1
  {
    if j == 0 then 1 else 2 * Pow2(j - 1)
  }

  /** Whether `w & (1 << j)` is non-zero, for any integer `w`. */
  predicate Bit(w: int, j: nat) {
    (w / Pow2(j)) % 2 == 1
  }

  /** `handler.extract(gdb_value, index)` for a container: the element at
      `index[0]`, as a gdb value of the contained type. */
  function ElementRepr(k: HandlerKind, v: Value, index: seq<int>, mem: Memory): (r: Result<Repr, Error>)
    requires !IsScalarKind(k)
    ensures |index| == 0 ==> r == Failure(IndexError)
    ensures r.Ok? && k.StdVectorBool? ==> r.value == Raw(0) || r.value == Raw(1)
  {
    if |index| == 0 then Failure(IndexError)
    else
      var i := index[0];
      match k
      case StdVector =>
        (match v.repr
         case VectorImpl(start, _) => Load(mem, start + i)
         case _ => Failure(NoSuchMember("_M_impl")))
      case StdVectorBool =>
        (match v.repr
         case BitVectorImpl(startWord, _, _) =>
           var word :- Load(mem, startWord + i / 64);
           var b64 :- IntOf(word);
           Ok(Raw(if Bit(b64, i % 64) then 1 else 0))
         case _ => Failure(NoSuchMember("_M_impl")))
      case StdArray =>
        (match v.repr
         case Elems(es) => if 0 <= i < |es| then Ok(es[i]) else Failure(CannotSubscript(Spelling(v.ty)))
         case _ => Failure(NoSuchMember("_M_elems")))
      case Pointer =>
        (match v.repr
         case Address(a) => Load(mem, a + i)
         case _ => Failure(CannotSubscript(Spelling(v.ty))))
      case Array =>
        (match v.repr
         case Elems(es) => if 0 <= i < |es| then Ok(es[i]) else Failure(CannotSubscript(Spelling(v.ty)))
         case _ => Failure(CannotSubscript(Spelling(v.ty))))
  }

  /** A NumPy integer dtype: `u` or `i`, and a size in bytes. */
  datatype Dtype = Dtype(unsigned: bool, size: nat)

  /** The dtype Integral.contained_type chooses from a type's spelling. */
  function DtypeOf(spelling: string): (d: Dtype)
    ensures d.unsigned <==> Contains(spelling, "unsigned")
    ensures d.size in {1, 2, 4, 8}
  {
    Dtype(Contains(spelling, "unsigned"),
          if Contains(spelling, "char") then 1
          else if Contains(spelling, "short") then 2
          else if Contains(spelling, "int") then 4
          else 8)
  }

  /** The sizes and signedness of the C integer types on x86-64 Linux, an
      LP64 target where plain `char` is signed, written out independently
      of DtypeOf. */
  const Lp64: map<string, Dtype> := map[
    "char" := Dtype(false, 1), "short" := Dtype(false, 2), "int" := Dtype(false, 4),
    "long" := Dtype(false, 8), "long long" := Dtype(false, 8),
    "unsigned char" := Dtype(true, 1), "unsigned short" := Dtype(true, 2),
    "unsigned int" := Dtype(true, 4), "unsigned long" := Dtype(true, 8),
    "unsigned long long" := Dtype(true, 8)
  ]

  /** A scalar as NumPy holds it. Floating-point and complex values stay
      opaque: `raw` is whatever gdb holds, tagged with the handler. */
  datatype Prim =
    | IntPrim(dtype: Dtype, n: int)
    | BoolPrim(b: bool)
    | FloatPrim(kind: HandlerKind, raw: int)

  /** `handler.extract(gdb_value, ())` for a scalar handler. The Integral
      handler needs the dtype its contained_type stored; without it the
      attribute lookup fails. */
  function ExtractScalar(k: HandlerKind, dtype: Option<Dtype>, v: Value): (r: Result<Prim, Error>)
    requires IsScalarKind(k)
    ensures k.Integral? && dtype.None? ==> r == Failure(AttributeError)
    ensures r.Ok? ==> v.repr.Raw?
    ensures r.Ok? && k.Integral? ==> r.value == IntPrim(dtype.value, v.repr.n)
    ensures r.Ok? && k.Bool? ==> r.value == BoolPrim(v.repr.n != 0)
    ensures v.repr.Raw? && !(k.Integral? && dtype.None?) ==> r.Ok?
  {
    if k.Integral? && dtype.None? then Failure(AttributeError)
    else
      match v.repr
      case Raw(n) =>
        if k.Integral? then Ok(IntPrim(dtype.value, n))
        else if k.Bool? then Ok(BoolPrim(n != 0))
        else Ok(FloatPrim(k, n))
      case _ => Failure(NotAScalar)
  }

  // ---------------------------------------------------------------------
  // Properties of the handlers

  /** The two vector handlers split the `std::vector` types between them
      on the first template argument: they fail together, and when they
      answer, exactly one of them says yes. */
  lemma VectorHandlersPartition(t: GdbType)
    ensures CanHandle(StdVector, t).Failure? <==> CanHandle(StdVectorBool, t).Failure?
    ensures CanHandle(StdVector, t).Ok? && StartsWith(Spelling(t), "std::vector") ==>
              CanHandle(StdVector, t).value != CanHandle(StdVectorBool, t).value
    ensures CanHandle(StdVector, t).Failure? <==> StartsWith(Spelling(t), "std::vector") && !(t.Named? && |t.args| > 0)
  {
  }

  /** Whichever scalar handler accepts a type, no other scalar handler
      accepts it as well. */
  lemma ScalarHandlersDisjoint(k1: HandlerKind, k2: HandlerKind, t: GdbType)
    requires IsScalarKind(k1) && IsScalarKind(k2) && k1 != k2
    ensures !(CanHandle(k1, t) == Ok(true) && CanHandle(k2, t) == Ok(true))
  {
  }

  /** The dtype the Integral handler picks for each of its types is the
      size and signedness the x86-64 table (`Lp64`) gives that type. */
  lemma IntegralDtypeIsLp64(t: GdbType)
    ensures CanHandle(Integral, t) == Ok(Spelling(t) in Lp64 && t.Named?)
    ensures Spelling(t) in Lp64 ==> DtypeOf(Spelling(t)) == Lp64[Spelling(t)]
  {
    IntegralSpellingsAreLp64Keys();
    if Spelling(t) in Lp64 {
      Lp64Dtype(Spelling(t));
    }
  }

  /** The Integral handler accepts exactly the types of the x86-64 table
      (`Lp64`). */
  lemma IntegralSpellingsAreLp64Keys()
    ensures forall s :: s in Lp64 <==> s in IntegralSpellings
  {
  }

  /** DtypeOf agrees with the x86-64 table (`Lp64`) on each of its entries. */
  lemma Lp64Dtype(s: string)
    requires s in Lp64
    ensures DtypeOf(s) == Lp64[s]
  {
    if s == "char" || s == "unsigned char" {
      CharDtype(s);
    } else if s == "short" || s == "unsigned short" {
      ShortDtype(s);
    } else if s == "int" || s == "unsigned int" {
      IntDtype(s);
    } else {
      LongDtype(s);
    }
  }

  lemma CharDtype(s: string)
    requires s == "char" || s == "unsigned char"
    ensures DtypeOf(s) == Dtype(s != "char", 1)
  {
    if s == "char" {
      AbsentCharNotContained(s, "unsigned", 0);
      assert s == "" + "char" + "";
      ContainsJoined("", "char", "");
    } else {
      assert s == "" + "unsigned" + " char";
      ContainsJoined("", "unsigned", " char");
      assert s == "unsigned " + "char" + "";
      ContainsJoined("unsigned ", "char", "");
    }
  }

  lemma ShortDtype(s: string)
    requires s == "short" || s == "unsigned short"
    ensures DtypeOf(s) == Dtype(s != "short", 2)
  {
    AbsentCharNotContained(s, "char", 0);
    if s == "short" {
      AbsentCharNotContained(s, "unsigned", 0);
      assert s == "" + "short" + "";
      ContainsJoined("", "short", "");
    } else {
      assert s == "" + "unsigned" + " short";
      ContainsJoined("", "unsigned", " short");
      assert s == "unsigned " + "short" + "";
      ContainsJoined("unsigned ", "short", "");
    }
  }

  lemma IntDtype(s: string)
    requires s == "int" || s == "unsigned int"
    ensures DtypeOf(s) == Dtype(s != "int", 4)
  {
    AbsentCharNotContained(s, "char", 0);
    AbsentCharNotContained(s, "short", 1);
    if s == "int" {
      AbsentCharNotContained(s, "unsigned", 0);
      assert s == "" + "int" + "";
      ContainsJoined("", "int", "");
    } else {
      assert s == "" + "unsigned" + " int";
      ContainsJoined("", "unsigned", " int");
      assert s == "unsigned " + "int" + "";
      ContainsJoined("unsigned ", "int", "");
    }
  }

  lemma LongDtype(s: string)
    requires s == "long" || s == "long long" || s == "unsigned long" || s == "unsigned long long"
    ensures DtypeOf(s) == Dtype(s == "unsigned long" || s == "unsigned long long", 8)
  {
    AbsentCharNotContained(s, "char", 0);
    AbsentCharNotContained(s, "short", 1);
    AbsentCharNotContained(s, "int", 2);
    if s == "long" || s == "long long" {
      AbsentCharNotContained(s, "unsigned", 0);
    } else {
      assert s == "" + "unsigned" + s[8..];
      ContainsJoined("", "unsigned", s[8..]);
    }
  }

  // ---------------------------------------------------------------------
  // Reading containers back from their layout in memory

  /** A std::vector whose elements `xs` sit at consecutive addresses from
      `start` has shape `(|xs|,)` and element `i` is `xs[i]`. */
  lemma StdVectorReadsBack(elemTy: GdbType, xs: seq<Repr>, start: int, mem: Memory)
    requires forall i :: 0 <= i < |xs| ==> start + i in mem && mem[start + i] == xs[i]
    ensures var v := Value(Named("std::vector", [TypeArg(elemTy)]), VectorImpl(start, start + |xs|));
      && ShapeOf(StdVector, v) == Ok([Some(|xs|)])
      && ContainedTypeOf(StdVector, v.ty) == Ok(Some(elemTy))
      && forall i :: 0 <= i < |xs| ==> ElementRepr(StdVector, v, [i], mem) == Ok(xs[i])
  {
  }

  /** The value of a word whose bit `j` is `bits[j]`. */
  function Word(bits: seq<bool>): nat {
    if |bits| == 0 then 0 else (if bits[0] then 1 else 0) + 2 * Word(bits[1..])
  }

  /** The 64-bit words libstdc++ stores a std::vector<bool> in: bit `i % 64`
      of word `i / 64` holds element `i`. */
  function PackWords(bs: seq<bool>): (ws: seq<int>)
    ensures |ws| == (|bs| + 63) / 64
    decreases |bs|
  {
    if |bs| == 0 then []
    else if |bs| <= 64 then [Word(bs)]
    else [Word(bs[..64])] + PackWords(bs[64..])
  }

  lemma DivDouble(b: int, w: int, p: int)
    requires 0 <= b <= 1 && p >= 1
    ensures (b + 2 * w) / (2 * p) == w / p
  {
    var q, r := w / p, w % p;
    assert w == q * p + r && 0 <= r < p;
    var x := b + 2 * w;
    var q2, r2 := x / (2 * p), x % (2 * p);
    assert x == q2 * (2 * p) + r2 && 0 <= r2 < 2 * p;
    assert x == q * (2 * p) + (2 * r + b);
    var e := q2 - q;
    assert e * (2 * p) == (2 * r + b) - r2;
    Util.MulSign(e, 2 * p);
  }

  /** The lowest bit of `b + 2w` is `b`. */
  lemma LowBit(b: int, w: int)
    requires 0 <= b <= 1
    ensures Bit(b + 2 * w, 0) == (b == 1)
  {
    assert Pow2(0) == 1;
    assert (b + 2 * w) / 1 == b + 2 * w;
    assert (b + 2 * w) % 2 == b;
  }

  /** Bit `j` of `b + 2w` is bit `j - 1` of `w`. */
  lemma ShiftedBit(b: int, w: int, j: nat)
    requires 0 <= b <= 1 && j > 0
    ensures Bit(b + 2 * w, j) == Bit(w, j - 1)
  {
    var p := Pow2(j - 1);
    assert Pow2(j) == 2 * p;
    DivDouble(b, w, p);
  }

  /** Bit `j` of `Word(bits)` is `bits[j]`. */
  lemma {:induction false} WordBit(bits: seq<bool>, j: nat)
    requires j < |bits|
    ensures Bit(Word(bits), j) == bits[j]
  {
    var b := if bits[0] then 1 else 0;
    var w := Word(bits[1..]);
    assert Word(bits) == b + 2 * w;
    if j == 0 {
      LowBit(b, w);
    } else {
      ShiftedBit(b, w, j);
      WordBit(bits[1..], j - 1);
      assert bits[1..][j - 1] == bits[j];
    }
  }

  /** Element `i` of a packed vector<bool> is found at bit `i % 64` of word `i / 64`. */
  lemma {:induction false} PackedBit(bs: seq<bool>, i: nat)
    requires i < |bs|
    ensures i / 64 < |PackWords(bs)| && Bit(PackWords(bs)[i / 64], i % 64) == bs[i]
    decreases |bs|
  {
    if |bs| <= 64 {
      WordBit(bs, i);
    } else if i < 64 {
      WordBit(bs[..64], i);
    } else {
      PackedBit(bs[64..], i - 64);
      assert PackWords(bs)[i / 64] == PackWords(bs[64..])[(i - 64) / 64];
    }
  }

  /** A std::vector<bool> of the booleans `bs`, laid out by libstdc++
      (the words of PackWords from `startWord`, the finish iterator at word
      `|bs| / 64`, bit `|bs| % 64`), has shape `(|bs|,)` and element `i`
      reads back as `bs[i]`. */
  lemma StdVectorBoolReadsBack(bs: seq<bool>, startWord: int, mem: Memory)
    requires forall k :: 0 <= k < |PackWords(bs)| ==> startWord + k in mem && mem[startWord + k] == Raw(PackWords(bs)[k])
    ensures var v := Value(Named("std::vector<bool>", [TypeArg(Named("bool", []))]),
                           BitVectorImpl(startWord, startWord + |bs| / 64, |bs| % 64));
      && ShapeOf(StdVectorBool, v) == Ok([Some(|bs|)])
      && forall i :: 0 <= i < |bs| ==> ElementRepr(StdVectorBool, v, [i], mem) == Ok(Raw(if bs[i] then 1 else 0))
  {
    var v := Value(Named("std::vector<bool>", [TypeArg(Named("bool", []))]),
                   BitVectorImpl(startWord, startWord + |bs| / 64, |bs| % 64));
    forall i | 0 <= i < |bs|
      ensures ElementRepr(StdVectorBool, v, [i], mem) == Ok(Raw(if bs[i] then 1 else 0))
    {
      PackedBit(bs, i);
      var w := PackWords(bs)[i / 64];
      assert Load(mem, startWord + i / 64) == Ok(Raw(w));
      BoolElement(v, startWord, i, w, bs[i], mem);
    }
  }

  /** Reading element `i` of a vector<bool> whose word `i / 64` is `w`. */
  lemma BoolElement(v: Value, startWord: int, i: nat, w: int, b: bool, mem: Memory)
    requires v.repr.BitVectorImpl? && v.repr.startWord == startWord
    requires Load(mem, startWord + i / 64) == Ok(Raw(w)) && Bit(w, i % 64) == b
    ensures ElementRepr(StdVectorBool, v, [i], mem) == Ok(Raw(if b then 1 else 0))
  {
  }

  /** A std::array<T, n> holding `xs` has shape `(n,)` and element `i` is `xs[i]`. */
  lemma StdArrayReadsBack(name: string, elemTy: GdbType, xs: seq<Repr>)
    ensures var v := Value(Named(name, [TypeArg(elemTy), ValueArg(|xs|)]), Elems(xs));
      && ShapeOf(StdArray, v) == Ok([Some(|xs|)])
      && ContainedTypeOf(StdArray, v.ty) == Ok(Some(elemTy))
      && forall i, mem :: 0 <= i < |xs| ==> ElementRepr(StdArray, v, [i], mem) == Ok(xs[i])
  {
  }

  /** A C array `T[n]` holding `xs` has shape `(n,)` and element `i` is `xs[i]`. */
  lemma ArrayReadsBack(elemTy: GdbType, xs: seq<Repr>)
    ensures var v := Value(ArrayOf(elemTy, |xs| - 1), Elems(xs));
      && ShapeOf(Array, v) == Ok([Some(|xs|)])
      && ContainedTypeOf(Array, v.ty) == Ok(Some(elemTy))
      && forall i, mem :: 0 <= i < |xs| ==> ElementRepr(Array, v, [i], mem) == Ok(xs[i])
  {
  }

  /** A pointer has one dimension of unknown size; element `i` is whatever
      lies `i` elements past the address. */
  lemma PointerReads(elemTy: GdbType, address: int, mem: Memory)
    ensures var v := Value(PointerTo(elemTy), Address(address));
      && ShapeOf(Pointer, v) == Ok([None])
      && ContainedTypeOf(Pointer, v.ty) == Ok(Some(elemTy))
      && forall i :: ElementRepr(Pointer, v, [i], mem) == Load(mem, address + i)
  {
  }
}
