/** A model of the part of LDC's general LLVM code-generation helpers
    (gen/llvmhelpers.h) whose behaviour is visible in the header: the
    try-finally tracking record, offset realignment, the comparison-token
    out-parameter protocol, the constant character-array serialiser and the
    lookup-or-insert on a module's global variables. LLVM objects appear as
    plain values; the module's global table is a class updated in place. */
module LlvmHelpers {

  datatype Option<T> = None | Some(value: T)

  datatype Result<T, E> = Ok(value: T) | Err(error: E)

  // ---------------------------------------------------------------------
  // Try-finally tracking
  // ---------------------------------------------------------------------

  /** Frontend try-finally statement and LLVM basic block, known here only by
      identity. */
  datatype TryFinallyStatement = TryFinallyStatement(id: nat)
  datatype BasicBlock = BasicBlock(id: nat)

  /** The record used for tracking try-finally scopes: the statement and the
      landing pad that unwinding through its body branches to. */
  datatype EnclosingTryFinally = EnclosingTryFinally(tf: TryFinallyStatement, landingPad: BasicBlock)

  /** The record's constructor: it keeps exactly the statement and pad it is given. */
  function NewEnclosingTryFinally(tf: TryFinallyStatement, pad: BasicBlock): (r: EnclosingTryFinally)
    ensures r.tf == tf && r.landingPad == pad
  {
    EnclosingTryFinally(tf, pad)
  }

  // ---------------------------------------------------------------------
  // Offset realignment
  // ---------------------------------------------------------------------

  /** True when `m` is a multiple of the positive `alignment`. */
  predicate IsAligned(m: nat, alignment: nat)
    requires alignment > 0
  {
    m % alignment == 0
  }

  /** realignOffset: the offset rounded up to the closest offset that is a
      multiple of the type's alignment. */
  function RealignOffset(offset: nat, alignment: nat): (r: nat)
    requires alignment > 0
    ensures offset <= r < offset + alignment
    ensures IsAligned(r, alignment)
  {
    var rem := offset % alignment;
    if rem == 0 then offset
    else
      var q := offset / alignment;
      assert offset + (alignment - rem) == (q + 1) * alignment + 0;
      DivModUnique(offset + (alignment - rem), alignment, q + 1, 0);
      offset + (alignment - rem)
  }

  /** Division with remainder is unique: any decomposition `x == q * a + r`
      with `0 <= r < a` is the one `/` and `%` compute. */
  lemma {:induction false} DivModUnique(x: int, a: int, q: int, r: int)
    requires a > 0 && 0 <= r < a && x == q * a + r
    ensures x / a == q && x % a == r
  {
    var d := q - x / a;
    assert d * a == x % a - r;
    if d >= 1 {
      MulAtLeast(d, a);
    } else if d <= -1 {
      MulAtMost(d, a);
    }
  }

  lemma {:induction false} MulAtMost(d: int, a: int)
    requires d <= -1 && a > 0
    ensures d * a <= -a
    decreases -d
  {
    if d < -1 {
      MulAtMost(d + 1, a);
      assert d * a == (d + 1) * a - a;
    }
  }

  lemma {:induction false} MulAtLeast(d: int, a: int)
    requires d >= 1 && a > 0
    ensures d * a >= a
    decreases d
  {
    if d > 1 {
      MulAtLeast(d - 1, a);
      assert d * a == (d - 1) * a + a;
    }
  }

  /** No aligned offset lies between `offset` and its realigned value: the
      result is the least aligned offset that is not below `offset`. */
  lemma RealignOffsetIsLeast(offset: nat, alignment: nat, m: nat)
    requires alignment > 0
    requires IsAligned(m, alignment) && offset <= m
    ensures RealignOffset(offset, alignment) <= m
  {
    var r := RealignOffset(offset, alignment);
    if m < r {
      // m and r would be two distinct multiples less than `alignment` apart.
      var j, k := m / alignment, r / alignment;
      assert m == j * alignment && r == k * alignment;
      assert (k - j) * alignment == r - m;
      if k - j >= 1 {
        MulAtLeast(k - j, alignment);
      } else if k - j <= -1 {
        MulAtMost(k - j, alignment);
      }
    }
  }

  /** An offset that already is aligned is left untouched. */
  lemma RealignAlignedOffset(offset: nat, alignment: nat)
    requires alignment > 0
    ensures IsAligned(offset, alignment) <==> RealignOffset(offset, alignment) == offset
  {
  }

  /** Realigning twice is the same as realigning once. */
  lemma RealignOffsetIdempotent(offset: nat, alignment: nat)
    requires alignment > 0
    ensures RealignOffset(RealignOffset(offset, alignment), alignment) == RealignOffset(offset, alignment)
  {
    RealignAlignedOffset(RealignOffset(offset, alignment), alignment);
  }

  /** Realignment preserves the order of offsets. */
  lemma RealignOffsetMonotonic(a: nat, b: nat, alignment: nat)
    requires alignment > 0 && a <= b
    ensures RealignOffset(a, alignment) <= RealignOffset(b, alignment)
  {
    RealignOffsetIsLeast(a, alignment, RealignOffset(b, alignment));
  }

  // ---------------------------------------------------------------------
  // Comparison token to icmp predicate
  // ---------------------------------------------------------------------

  /** A frontend comparison token, known here only by its code. */
  datatype Tok = Tok(code: nat)

  /** LLVM's integer comparison predicates. */
  datatype IcmpPredicate = Eq | Ne | Ugt | Uge | Ult | Ule | Sgt | Sge | Slt | Sle

  /** What tokToIcmpPred yields for one token and signedness: either a
      constant boolean result or a predicate to compare with. */
  datatype IcmpOutcome = Const(value: bool) | Pred(pred: IcmpPredicate)

  /** The conversion table of comparison tokens, indexed by token and operand
      signedness; its contents are the frontend's and are a parameter here. */
  type ComparisonTable = map<(Tok, bool), IcmpOutcome>

  /** The two out-pointers tokToIcmpPred writes through. `None` is a slot
      the call has not written (the caller's null-initialised constant). */
  class IcmpOutParams {
    var outPred: Option<IcmpPredicate>
    var outConst: Option<bool>

    constructor ()
      ensures outPred == None && outConst == None
    {
      outPred := None;
      outConst := None;
    }
  }

  /** The out-pointer state after a call whose outcome is `o`, starting from
      `pred` and `constant`: exactly one of the two slots is written. */
  function WriteOutParams(o: IcmpOutcome, pred: Option<IcmpPredicate>, constant: Option<bool>)
    : (r: (Option<IcmpPredicate>, Option<bool>))
    ensures o.Const? ==> r.0 == pred && r.1 == Some(o.value)
    ensures o.Pred? ==> r.0 == Some(o.pred) && r.1 == constant
  {
    match o
    case Const(b) => (pred, Some(b))
    case Pred(p) => (Some(p), constant)
  }

  /** How a caller reads the out-pointers back: a set constant wins,
      otherwise the predicate is used; neither set is no outcome at all. */
  function ReadOutParams(pred: Option<IcmpPredicate>, constant: Option<bool>): (r: Option<IcmpOutcome>)
    ensures r.Some? <==> pred.Some? || constant.Some?
    ensures constant.Some? ==> r == Some(Const(constant.value))
  {
    if constant.Some? then Some(Const(constant.value))
    else if pred.Some? then Some(Pred(pred.value))
    else None
  }

  /** tokToIcmpPred: writes either the constant or the predicate for `op`
      under the given signedness, and leaves the other out-pointer alone. */
  method TokToIcmpPred(table: ComparisonTable, op: Tok, isUnsigned: bool, out: IcmpOutParams)
    requires (op, isUnsigned) in table
    modifies out
    ensures (out.outPred, out.outConst) == WriteOutParams(table[(op, isUnsigned)], old(out.outPred), old(out.outConst))
  {
    match table[(op, isUnsigned)]
    case Const(b) =>
      out.outConst := Some(b);
    case Pred(p) =>
      out.outPred := Some(p);
  }

  /** From fresh out-pointers a call sets exactly one of them: a constant
      result or a predicate, never both and never neither. */
  lemma OutParamsExclusive(o: IcmpOutcome)
    ensures WriteOutParams(o, None, None).0.Some? != WriteOutParams(o, None, None).1.Some?
  {
  }

  /** A caller that null-initialises the constant out-pointer reads back
      exactly the outcome the call produced, whatever the predicate slot held. */
  lemma OutParamsRoundTrip(o: IcmpOutcome, pred: Option<IcmpPredicate>)
    ensures var w := WriteOutParams(o, pred, None); ReadOutParams(w.0, w.1) == Some(o)
  {
  }

  // ---------------------------------------------------------------------
  // Constant character arrays
  // ---------------------------------------------------------------------

  /** Bit width of an LLVM integer type. */
  type Width = w: nat | 1 <= w witness 8

  datatype IntType = IntType(bits: Width)
  datatype ArrayType = ArrayType(elem: IntType, count: nat)

  /** An LLVM integer constant: its type and its (unsigned) bit pattern. */
  datatype ConstantInt = ConstantInt(ty: IntType, value: nat)

  /** An LLVM constant array: its type and its elements in order. */
  datatype ConstantArray = ConstantArray(ty: ArrayType, elems: seq<ConstantInt>)

  function Pow2(n: nat): (r: nat)
    ensures r >= 1
  {
    if n == 0 then 1 else 2 * Pow2(n - 1)
  }

  /** The low `n` bits of the two's-complement representation of `v`, as an
      unsigned number. */
  function LowBits(v: int, n: nat): (r: nat)
    ensures r < Pow2(n)
    decreases n
  {
    if n == 0 then 0 else v % 2 + 2 * LowBits(v / 2, n - 1)
  }

  /** LLConstantInt::get(ct, v, false): the character value is converted to
      a 64-bit unsigned integer, then truncated (or zero-extended) to the
      element width; the constant holds the low min(width, 64) bits of `v`. */
  function IntConstant(ct: IntType, v: int): (r: ConstantInt)
    ensures r.ty == ct
    ensures r.value < Pow2(ct.bits)
  {
    assert Pow2(StoredBits(ct)) <= Pow2(ct.bits) by { Pow2Monotonic(StoredBits(ct), ct.bits); }
    ConstantInt(ct, LowBits(v, StoredBits(ct)))
  }

  /** How many low bits of a character survive into a constant of type `ct`:
      the element width, but at most the 64 bits of ConstantInt::get's
      parameter. */
  function StoredBits(ct: IntType): (n: nat)
    ensures n <= ct.bits && n <= 64
  {
    if ct.bits < 64 then ct.bits else 64
  }

  lemma {:induction false} Pow2Monotonic(m: nat, n: nat)
    requires m <= n
    ensures Pow2(m) <= Pow2(n)
    decreases n
  {
    if m < n {
      Pow2Monotonic(m, n - 1);
    }
  }

  /** The low `n` bits of `v` are `v` modulo 2^n, also for negative `v`
      (a signed character of -61 stored as 8 bits gives 195). */
  lemma {:induction false} LowBitsIsMod(v: int, n: nat)
    ensures LowBits(v, n) == v % Pow2(n)
    decreases n
  {
    if n == 0 {
      DivModUnique(v, 1, v, 0);
    } else {
      var p' := Pow2(n - 1);
      LowBitsIsMod(v / 2, n - 1);
      var q, low := (v / 2) / p', (v / 2) % p';
      assert v / 2 == q * p' + low;
      assert v == q * Pow2(n) + (v % 2 + 2 * low);
      DivModUnique(v, Pow2(n), q, v % 2 + 2 * low);
    }
  }

  /** The constant for `v` holds `v` taken as unsigned: `v` modulo 2 to the
      number of bits that survive into the element. */
  lemma IntConstantValue(ct: IntType, v: int)
    ensures IntConstant(ct, v).value == v % Pow2(StoredBits(ct))
  {
    LowBitsIsMod(v, StoredBits(ct));
  }

  /** A signed character of -61 (a UTF-8 lead byte) in an 8-bit element is
      stored as the unsigned byte 195. */
  lemma SignedCharTakenAsUnsigned()
    ensures IntConstant(IntType(8), -61).value == 195
  {
    IntConstantValue(IntType(8), -61);
    assert Pow2(StoredBits(IntType(8))) == 256;
  }

  /** A non-negative value below 2^n is its own low `n` bits. */
  lemma {:induction false} LowBitsOfSmallValue(v: int, n: nat)
    requires 0 <= v < Pow2(n)
    ensures LowBits(v, n) == v
    decreases n
  {
    if n > 0 {
      LowBitsOfSmallValue(v / 2, n - 1);
    }
  }

  /** A character whose value fits both the element type and the 64-bit
      parameter is stored unchanged. */
  lemma IntConstantKeepsFittingValue(ct: IntType, v: int)
    requires 0 <= v < Pow2(StoredBits(ct))
    ensures IntConstant(ct, v).value == v
  {
    LowBitsOfSmallValue(v, StoredBits(ct));
  }

  /** The element sequence toConstantArray builds from `chars`: one constant
      per character, in order, then a zero when `nullterm` is set. */
  function ConstantElements(ct: IntType, chars: seq<int>, nullterm: bool): (r: seq<ConstantInt>)
    ensures |r| == if nullterm then |chars| + 1 else |chars|
    ensures forall i :: 0 <= i < |chars| ==> r[i] == IntConstant(ct, chars[i])
    ensures nullterm ==> r[|chars|] == IntConstant(ct, 0)
  {
    if |chars| == 0 then
      if nullterm then [IntConstant(ct, 0)] else []
    else
      [IntConstant(ct, chars[0])] + ConstantElements(ct, chars[1..], nullterm)
  }

  /** toConstantArray: serialises the first `len` characters of `str` into a
      constant array of type `at`, each taken as unsigned, with a zero
      terminator appended when `nullterm` is set. */
  method ToConstantArray(ct: IntType, at: ArrayType, str: array<int>, len: nat, nullterm: bool := true)
    returns (r: ConstantArray)
    requires len <= str.Length
    ensures r.ty == at
    ensures |r.elems| == if nullterm then len + 1 else len
    ensures forall i :: 0 <= i < len ==> r.elems[i] == IntConstant(ct, str[i])
    ensures nullterm ==> r.elems[len] == IntConstant(ct, 0)
    ensures r.elems == ConstantElements(ct, str[..len], nullterm)
  {
    var vals: seq<ConstantInt> := [];
    var i := 0;
    while i < len
      invariant 0 <= i <= len
      invariant |vals| == i
      invariant forall k :: 0 <= k < i ==> vals[k] == IntConstant(ct, str[k])
    {
      vals := vals + [IntConstant(ct, str[i])];
      i := i + 1;
    }
    if nullterm {
      vals := vals + [IntConstant(ct, 0)];
    }
    ghost var spec := ConstantElements(ct, str[..len], nullterm);
    forall k | 0 <= k < |vals|
      ensures vals[k] == spec[k]
    {
      if k < len {
        assert str[..len][k] == str[k];
      }
    }
    r := ConstantArray(at, vals);
  }

  /** The integer values of a sequence of constants, as a reader of the
      emitted array sees them. */
  function ElementValues(elems: seq<ConstantInt>): (r: seq<nat>)
    ensures |r| == |elems|
    ensures forall i :: 0 <= i < |elems| ==> r[i] == elems[i].value
  {
    if elems == [] then [] else [elems[0].value] + ElementValues(elems[1..])
  }

  /** Length of a C-style string: the number of values before the first zero. */
  function CStringLength(vals: seq<nat>): (n: nat)
    ensures n <= |vals|
  {
    if vals == [] || vals[0] == 0 then 0 else 1 + CStringLength(vals[1..])
  }

  /** True when every character fits the element type unchanged. */
  predicate FitsElement(ct: IntType, chars: seq<int>)
  {
    forall i :: 0 <= i < |chars| ==> 0 <= chars[i] < Pow2(StoredBits(ct))
  }

  /** Reading back the values of the emitted array gives the characters,
      followed by the terminator when there is one. */
  lemma {:induction false} ConstantElementsRoundTrip(ct: IntType, chars: seq<int>, nullterm: bool)
    requires FitsElement(ct, chars)
    ensures ElementValues(ConstantElements(ct, chars, nullterm))
            == chars + (if nullterm then [0] else [])
  {
    var elems := ConstantElements(ct, chars, nullterm);
    var want := chars + (if nullterm then [0] else []);
    forall i | 0 <= i < |elems|
      ensures elems[i].value == want[i]
    {
      if i < |chars| {
        IntConstantKeepsFittingValue(ct, chars[i]);
      } else {
        IntConstantKeepsFittingValue(ct, 0);
      }
    }
    assert ElementValues(elems) == want;
  }

  /** A sequence whose first zero sits at index `n` has C-string length `n`. */
  lemma {:induction false} CStringLengthAtFirstZero(vals: seq<nat>, n: nat)
    requires n < |vals| && vals[n] == 0
    requires forall i :: 0 <= i < n ==> vals[i] != 0
    ensures CStringLength(vals) == n
    decreases n
  {
    if n > 0 {
      CStringLengthAtFirstZero(vals[1..], n - 1);
    }
  }

  /** A null-terminated array of characters none of which truncates to zero
      reads back, as a C string, with exactly `|chars|` characters. */
  lemma NullTerminatedLength(ct: IntType, chars: seq<int>)
    requires forall i :: 0 <= i < |chars| ==> IntConstant(ct, chars[i]).value != 0
    ensures CStringLength(ElementValues(ConstantElements(ct, chars, true))) == |chars|
  {
    var vals := ElementValues(ConstantElements(ct, chars, true));
    IntConstantKeepsFittingValue(ct, 0);
    CStringLengthAtFirstZero(vals, |chars|);
  }

  // ---------------------------------------------------------------------
  // Global variables of an LLVM module
  // ---------------------------------------------------------------------

  /** LLVM type, linkage kind and constant initialiser, known by identity. */
  datatype LLType = LLType(id: nat)
  datatype Linkage = Linkage(kind: nat)
  datatype Constant = Constant(id: nat)

  /** An LLVM global variable with the properties getOrCreateGlobal sets. */
  datatype GlobalRecord = GlobalRecord(
    name: string,
    ty: LLType,
    isConstant: bool,
    linkage: Linkage,
    init: Option<Constant>,
    threadLocal: bool)

  /** The error raised when a global of the same mangled name but another
      type already exists. */
  datatype GlobalError = LinkageConflict(name: string)

  /** A module's global table is consistent when each global is filed under
      its own name. */
  ghost predicate TableValid(globals: map<string, GlobalRecord>)
  {
    forall n :: n in globals ==> globals[n].name == n
  }

  /** getOrCreateGlobal on a table value: the result and the new table. */
  function GetOrCreate(globals: map<string, GlobalRecord>, ty: LLType, isConstant: bool,
                       linkage: Linkage, init: Option<Constant>, name: string, isThreadLocal: bool)
    : (res: (Result<GlobalRecord, GlobalError>, map<string, GlobalRecord>))
    ensures TableValid(globals) ==> TableValid(res.1)
    ensures globals.Keys <= res.1.Keys
    ensures forall n :: n in globals ==> res.1[n] == globals[n]
    ensures res.0.Ok? ==> name in res.1 && res.1[name] == res.0.value && res.0.value.ty == ty
    ensures res.0.Err? <==> name in globals && globals[name].ty != ty
    ensures TableValid(globals) && res.0.Ok? ==> res.0.value.name == name
  {
    if name in globals then
      var existing := globals[name];
      if existing.ty != ty then (Err(LinkageConflict(name)), globals)
      else (Ok(existing), globals)
    else
      var g := GlobalRecord(name, ty, isConstant, linkage, init, isThreadLocal);
      (Ok(g), globals[name := g])
  }

  /** The part of an llvm::Module that getOrCreateGlobal works on: its global
      variables by mangled name. */
  class LlvmModule {
    var globals: map<string, GlobalRecord>

    ghost predicate Valid()
      reads this
    {
      TableValid(globals)
    }

    constructor ()
      ensures Valid() && globals == map[]
    {
      globals := map[];
    }

    /** getOrCreateGlobal: returns the existing global of that name when its
        type matches, fails on a type mismatch, and otherwise creates the
        global with the given properties. */
    method GetOrCreateGlobal(ty: LLType, isConstant: bool, linkage: Linkage,
                             init: Option<Constant>, name: string, isThreadLocal: bool := false)
      returns (r: Result<GlobalRecord, GlobalError>)
      requires Valid()
      modifies this
      ensures Valid()
      ensures r.Ok? ==> r.value.name == name && r.value.ty == ty
      ensures (r, globals) == GetOrCreate(old(globals), ty, isConstant, linkage, init, name, isThreadLocal)
      ensures name in old(globals) && old(globals)[name].ty == ty ==>
                r == Ok(old(globals)[name]) && globals == old(globals)
      ensures name in old(globals) && old(globals)[name].ty != ty ==>
                r == Err(LinkageConflict(name)) && globals == old(globals)
      ensures name !in old(globals) ==>
                r == Ok(GlobalRecord(name, ty, isConstant, linkage, init, isThreadLocal)) &&
                globals == old(globals)[name := r.value]
    {
      if name in globals {
        var existing := globals[name];
        if existing.ty != ty {
          r := Err(LinkageConflict(name));
        } else {
          r := Ok(existing);
        }
      } else {
        var g := GlobalRecord(name, ty, isConstant, linkage, init, isThreadLocal);
        globals := globals[name := g];
        r := Ok(g);
      }
    }
  }

  /** Asking again for a global with the same name and type yields the same
      global and leaves the table as it was, whatever the other properties. */
  lemma GetOrCreateIdempotent(globals: map<string, GlobalRecord>, ty: LLType,
                              isConstant: bool, linkage: Linkage, init: Option<Constant>,
                              isConstant2: bool, linkage2: Linkage, init2: Option<Constant>,
                              name: string, isThreadLocal: bool, isThreadLocal2: bool)
    requires GetOrCreate(globals, ty, isConstant, linkage, init, name, isThreadLocal).0.Ok?
    ensures var (r1, t1) := GetOrCreate(globals, ty, isConstant, linkage, init, name, isThreadLocal);
            GetOrCreate(t1, ty, isConstant2, linkage2, init2, name, isThreadLocal2) == (r1, t1)
  {
  }

  /** One request to getOrCreateGlobal. */
  datatype GlobalRequest = GlobalRequest(
    ty: LLType,
    isConstant: bool,
    linkage: Linkage,
    init: Option<Constant>,
    name: string,
    threadLocal: bool)

  /** A series of getOrCreateGlobal calls on one module; a linkage conflict
      is fatal and ends the series. */
  function DeclareAll(globals: map<string, GlobalRecord>, reqs: seq<GlobalRequest>)
    : Result<(seq<GlobalRecord>, map<string, GlobalRecord>), GlobalError>
    decreases |reqs|
  {
    if reqs == [] then Ok(([], globals))
    else
      var q := reqs[0];
      var (r, t) := GetOrCreate(globals, q.ty, q.isConstant, q.linkage, q.init, q.name, q.threadLocal);
      match r
      case Err(e) => Err(e)
      case Ok(g) =>
        match DeclareAll(t, reqs[1..])
        case Err(e) => Err(e)
        case Ok((gs, t')) => Ok(([g] + gs, t'))
  }

  /** After a series of declarations that all succeed, every request got the
      global now filed under its name, with the requested type, and globals
      that existed before are unchanged: declarations sharing a mangled name
      share one global. */
  lemma {:induction false} DeclareAllShares(globals: map<string, GlobalRecord>, reqs: seq<GlobalRequest>)
    requires TableValid(globals)
    requires DeclareAll(globals, reqs).Ok?
    decreases |reqs|
    ensures var (gs, t) := DeclareAll(globals, reqs).value;
            && |gs| == |reqs|
            && TableValid(t)
            && (forall n :: n in globals ==> n in t && t[n] == globals[n])
            && (forall i :: 0 <= i < |reqs| ==>
                  reqs[i].name in t && t[reqs[i].name] == gs[i] && gs[i].ty == reqs[i].ty)
  {
    if reqs != [] {
      var q := reqs[0];
      var (r, t1) := GetOrCreate(globals, q.ty, q.isConstant, q.linkage, q.init, q.name, q.threadLocal);
      DeclareAllShares(t1, reqs[1..]);
      var (gs', t) := DeclareAll(t1, reqs[1..]).value;
      var (gs, t2) := DeclareAll(globals, reqs).value;
      assert gs == [r.value] + gs' && t2 == t;
      forall i | 0 <= i < |reqs|
        ensures reqs[i].name in t && t[reqs[i].name] == gs[i] && gs[i].ty == reqs[i].ty
      {
        if i > 0 {
          assert reqs[i] == reqs[1..][i - 1];
        }
      }
    }
  }

  /** Asking for an existing name with another type always fails with a
      linkage conflict, and the table is left as it was. */
  lemma ConflictingTypeFails(globals: map<string, GlobalRecord>, ty: LLType, isConstant: bool,
                             linkage: Linkage, init: Option<Constant>, name: string, isThreadLocal: bool)
    requires name in globals && globals[name].ty != ty
    ensures GetOrCreate(globals, ty, isConstant, linkage, init, name, isThreadLocal)
            == (Err(LinkageConflict(name)), globals)
  {
  }
}
