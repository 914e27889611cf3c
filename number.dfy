/** The arithmetic helpers: each coerces its arguments to numbers and folds
    them from the left with one binary operator. */
module Number {
  import opened Values

  /** The operator enumeration, in the order of its iota constants:
      mul = 0, add = 1, div = 2, sub = 3, pow = 4. */
  datatype Operator = Mul | Add | Div | Sub | Pow

  /** The helper names and the operator each one folds with. */
  const NumberFuncMap: map<string, Operator> :=
    map["mul" := Mul, "add" := Add, "sum" := Add, "div" := Div, "sub" := Sub, "pow" := Pow]

  /** "add" and "sum" are the same helper; the table has six names. */
  lemma AddAndSumAgree()
    ensures NumberFuncMap.Keys == {"mul", "add", "sum", "div", "sub", "pow"}
    ensures NumberFuncMap["add"] == NumberFuncMap["sum"] == Add
  {
  }

  /** The basic kinds basicKind distinguishes (complex is not modelled). */
  datatype Kind = BoolKind | IntKind | UintKind | FloatKind | StringKind

  /** Why a fold aborts: a kind basicKind rejects, an unsigned argument (on
      which reflect's Int panics), a string that does not parse, or a kind
      that is not a number. */
  datatype CalError =
    | BadComparisonType
    | IntOfUnsigned
    | ParseFailure(text: string)
    | NotNumber(kind: Kind)

  /** basicKind, on the argument exactly as passed: no pointer or interface
      layer is stripped. */
  function BasicKind(v: Val): (r: Result<Kind, CalError>)
    ensures r == Ok(IntKind) <==> v.Int?
    ensures r == Ok(UintKind) <==> v.Uint?
    ensures r == Ok(FloatKind) <==> v.Real?
    ensures r == Ok(StringKind) <==> v.Str?
    ensures r == Ok(BoolKind) <==> v.Bool?
    ensures r.Err? ==> r.error == BadComparisonType
  {
    match v
    case Bool(_) => Ok(BoolKind)
    case Int(_) => Ok(IntKind)
    case Uint(_) => Ok(UintKind)
    case Real(_) => Ok(FloatKind)
    case Str(_) => Ok(StringKind)
    case _ => Err(BadComparisonType)
  }

  /** The number an argument stands for. parse is strconv.ParseFloat:
      None where the text is not a number. */
  function Coerce(v: Val, parse: string -> Option<real>): (r: Result<real, CalError>)
    ensures r.Ok? <==> v.Int? || v.Real? || (v.Str? && parse(v.s).Some?)
    ensures v.Int? ==> r == Ok(v.n as real)
    ensures v.Real? ==> r == Ok(v.x)
    ensures v.Str? && parse(v.s).Some? ==> r == Ok(parse(v.s).value)
    ensures v.Str? && parse(v.s).None? ==> r == Err(ParseFailure(v.s))
    ensures v.Uint? ==> r == Err(IntOfUnsigned)
    ensures v.Bool? ==> r == Err(NotNumber(BoolKind))
    ensures !(v.Int? || v.Uint? || v.Real? || v.Str? || v.Bool?) ==> r == Err(BadComparisonType)
  {
    match BasicKind(v)
    case Err(e) => Err(e)
    case Ok(IntKind) => Ok(v.n as real)
    case Ok(UintKind) => Err(IntOfUnsigned)
    case Ok(FloatKind) => Ok(v.x)
    case Ok(StringKind) =>
      (match parse(v.s)
       case None => Err(ParseFailure(v.s))
       case Some(x) => Ok(x))
    case Ok(BoolKind) => Err(NotNumber(BoolKind))
  }

  /** b raised to a natural power. */
  function Power(b: real, e: nat): real {
    if e == 0 then 1.0 else Power(b, e - 1) * b
  }

  /** The right operands the model gives a meaning to: a non-zero divisor
      (IEEE infinities are not modelled) and a natural-number exponent. */
  predicate Operable(op: Operator, x: real) {
    match op
    case Div => x != 0.0
    case Pow => 0.0 <= x && x.Floor as real == x
    case _ => true
  }

  /** The number that leaves the accumulator as it is: 1 for mul, div and
      pow, 0 for add and sub. */
  function Identity(op: Operator): real {
    match op
    case Add => 0.0
    case Sub => 0.0
    case _ => 1.0
  }

  /** One step of the fold: acc combined with the next number; the
      identity changes nothing. */
  function Combine(op: Operator, acc: real, x: real): (r: real)
    requires Operable(op, x)
    ensures x == Identity(op) ==> r == acc
  {
    match op
    case Mul => acc * x
    case Add => acc + x
    case Div => acc / x
    case Sub => acc - x
    case Pow =>
      assert x == 1.0 ==> x.Floor == 1 && Power(acc, 1) == acc;
      Power(acc, x.Floor as nat)
  }

  /** Sub and div undo add and mul; a zero factor gives 0; pow 0 gives 1. */
  lemma CombineInverses(op: Operator, acc: real, x: real)
    requires Operable(op, x)
    ensures op == Add ==> Combine(op, acc, x) - x == acc
    ensures op == Sub ==> Combine(op, acc, x) + x == acc
    ensures op == Div ==> Combine(op, acc, x) * x == acc
    ensures op == Mul && x == 0.0 ==> Combine(op, acc, x) == 0.0
    ensures op == Pow && x == 0.0 ==> Combine(op, acc, x) == 1.0
  {
  }

  predicate Foldable(op: Operator, xs: seq<real>) {
    forall i | 1 <= i < |xs| :: Operable(op, xs[i])
  }

  /** The first number is the accumulator; each later one is combined
      into it, strictly from left to right. */
  function LeftFold(op: Operator, xs: seq<real>): (r: real)
    requires |xs| > 0 && Foldable(op, xs)
    ensures |xs| == 1 ==> r == xs[0]
    decreases |xs|
  {
    if |xs| == 1 then xs[0]
    else Combine(op, LeftFold(op, xs[..|xs| - 1]), xs[|xs| - 1])
  }

  /** Later numbers that are all the operator's identity leave the first
      number as the result (div 2 1 1 1 = 2). */
  lemma {:induction false} FoldOfIdentities(op: Operator, xs: seq<real>)
    requires |xs| > 0
    requires forall i | 1 <= i < |xs| :: xs[i] == Identity(op)
    ensures Foldable(op, xs) && LeftFold(op, xs) == xs[0]
    decreases |xs|
  {
    if |xs| > 1 {
      FoldOfIdentities(op, xs[..|xs| - 1]);
    }
  }

  /** All arguments as numbers, or the error of the first one that is not. */
  function CoerceAll(args: seq<Val>, parse: string -> Option<real>): (r: Result<seq<real>, CalError>)
    ensures r.Ok? ==> (|r.value| == |args| &&
                       forall i | 0 <= i < |args| :: Coerce(args[i], parse) == Ok(r.value[i]))
    ensures r.Err? ==> exists k | 0 <= k < |args| :: Coerce(args[k], parse) == Err(r.error)
    decreases |args|
  {
    if args == [] then Ok([])
    else
      var init := args[..|args| - 1];
      match CoerceAll(init, parse)
      case Err(e) => Err(e)
      case Ok(xs) =>
        (match Coerce(args[|args| - 1], parse)
         case Err(e) => Err(e)
         case Ok(x) => Ok(xs + [x]))
  }

  /** What the model needs of the arguments: every later argument the fold
      reaches (all arguments up to it are numbers) is one Combine accepts.
      Arguments after the first failing one are not constrained. */
  predicate FoldDefined(op: Operator, args: seq<Val>, parse: string -> Option<real>) {
    forall j | 2 <= j <= |args| ::
      CoerceAll(args[..j], parse).Ok? ==> Operable(op, CoerceAll(args[..j], parse).value[j - 1])
  }

  /** A failed prefix fails the whole: arguments after a failing one are
      never coerced. */
  lemma {:induction false} CoerceAllErrSticky(args: seq<Val>, rest: seq<Val>, parse: string -> Option<real>)
    requires CoerceAll(args, parse).Err?
    ensures CoerceAll(args + rest, parse) == CoerceAll(args, parse)
    decreases |rest|
  {
    if rest == [] {
      assert args + rest == args;
    } else {
      var init := rest[..|rest| - 1];
      assert (args + rest)[..|args + rest| - 1] == args + init;
      CoerceAllErrSticky(args, init, parse);
    }
  }

  /** When every argument is a number, so is every argument of a prefix. */
  lemma {:induction false} CoerceAllPrefix(args: seq<Val>, parse: string -> Option<real>, j: nat)
    requires CoerceAll(args, parse).Ok? && j <= |args|
    ensures CoerceAll(args[..j], parse).Ok?
    decreases |args|
  {
    if j == |args| {
      assert args[..j] == args;
    } else {
      var init := args[..|args| - 1];
      assert args[..j] == init[..j];
      CoerceAllPrefix(init, parse, j);
    }
  }

  /** The argument at i >= 1 that the fold reaches is one Combine accepts. */
  lemma FoldDefinedAt(op: Operator, args: seq<Val>, parse: string -> Option<real>, i: nat)
    requires FoldDefined(op, args, parse) && 1 <= i < |args|
    requires CoerceAll(args[..i], parse).Ok? && Coerce(args[i], parse).Ok?
    ensures Operable(op, Coerce(args[i], parse).value)
  {
    CoerceAllExtends(args, parse, i);
    var p := args[..i + 1];
    assert CoerceAll(p, parse).value[|p| - 1] == Coerce(args[i], parse).value;
  }

  /** cal's loop state after i arguments: all of them are numbers, and r is
      1.0 before the first and their left fold after it. */
  ghost predicate FoldedUpTo(op: Operator, args: seq<Val>, parse: string -> Option<real>, i: nat, r: real) {
    i <= |args| && CoerceAll(args[..i], parse).Ok? &&
    (i == 0 ==> r == 1.0) &&
    (i > 0 ==> Foldable(op, CoerceAll(args[..i], parse).value) &&
               r == LeftFold(op, CoerceAll(args[..i], parse).value))
  }

  /** One step of cal's loop: the first number becomes the accumulator, and
      each later one, which FoldDefined makes one Combine accepts, is
      combined into the fold so far. */
  lemma CalStep(op: Operator, args: seq<Val>, parse: string -> Option<real>, i: nat, r: real, x: real)
    requires FoldDefined(op, args, parse) && i < |args|
    requires FoldedUpTo(op, args, parse, i, r) && Coerce(args[i], parse) == Ok(x)
    ensures i > 0 ==> Operable(op, x)
    ensures FoldedUpTo(op, args, parse, i + 1, if i == 0 then x else Combine(op, r, x))
  {
    CoerceAllExtends(args, parse, i);
    if i > 0 {
      FoldDefinedAt(op, args, parse, i);
      LeftFoldExtends(op, CoerceAll(args[..i], parse).value, x);
    }
  }

  /** Once every argument is folded, r is cal's result. */
  lemma CalDone(op: Operator, args: seq<Val>, parse: string -> Option<real>, r: real)
    requires FoldDefined(op, args, parse) && FoldedUpTo(op, args, parse, |args|, r)
    ensures Calc(op, args, parse) == Ok(r)
  {
    assert args[..|args|] == args;
  }

  /** The coerced numbers of arguments meeting FoldDefined can be folded. */
  lemma FoldDefinedFoldable(op: Operator, args: seq<Val>, parse: string -> Option<real>)
    requires FoldDefined(op, args, parse) && CoerceAll(args, parse).Ok?
    ensures Foldable(op, CoerceAll(args, parse).value)
  {
    var xs := CoerceAll(args, parse).value;
    forall i | 1 <= i < |xs| ensures Operable(op, xs[i]) {
      CoerceAllPrefix(args, parse, i + 1);
      var p := args[..i + 1];
      assert Coerce(p[i], parse) == Ok(CoerceAll(p, parse).value[i]);
    }
  }

  /** The value of the helper cal(op) on args: 1.0 for no arguments,
      otherwise the left fold of the coerced numbers or the first error. */
  function Calc(op: Operator, args: seq<Val>, parse: string -> Option<real>): (r: Result<real, CalError>)
    requires FoldDefined(op, args, parse)
    ensures args == [] ==> r == Ok(1.0)
    ensures |args| == 1 ==> r == Coerce(args[0], parse)
  {
    if args == [] then Ok(1.0)
    else
      assert |args| == 1 ==> args[..0] == [];
      match CoerceAll(args, parse)
      case Err(e) => Err(e)
      case Ok(xs) =>
        FoldDefinedFoldable(op, args, parse);
        Ok(LeftFold(op, xs))
  }

  /** The first argument that is not a number decides cal's result. */
  lemma CalcFails(op: Operator, args: seq<Val>, parse: string -> Option<real>, i: nat)
    requires FoldDefined(op, args, parse) && i < |args|
    requires CoerceAll(args[..i], parse).Ok? && Coerce(args[i], parse).Err?
    ensures Calc(op, args, parse) == Err(Coerce(args[i], parse).error)
  {
    FirstErrorAborts(args, parse, i);
  }

  /** cal(op): walks the arguments once, classifying and converting each,
      and aborts with (0, err) at the first one that is not a number. */
  method Cal(op: Operator, args: seq<Val>, parse: string -> Option<real>) returns (r: real, err: Option<CalError>)
    requires FoldDefined(op, args, parse)
    ensures Calc(op, args, parse).Ok? ==> err == None && r == Calc(op, args, parse).value
    ensures Calc(op, args, parse).Err? ==> err == Some(Calc(op, args, parse).error) && r == 0.0
  {
    r := 1.0;
    var i := 0;
    while i < |args|
      invariant 0 <= i <= |args|
      invariant FoldedUpTo(op, args, parse, i, r)
    {
      var v := args[i];
      var kind := BasicKind(v);
      if kind.Err? {
        CalcFails(op, args, parse, i);
        return 0.0, Some(kind.error);
      }
      var x: real;
      match kind.value {
        case IntKind =>
          x := v.n as real;
        case UintKind =>
          CalcFails(op, args, parse, i);
          return 0.0, Some(IntOfUnsigned);
        case FloatKind =>
          x := v.x;
        case StringKind =>
          var parsed := parse(v.s);
          if parsed.None? {
            CalcFails(op, args, parse, i);
            return 0.0, Some(ParseFailure(v.s));
          }
          x := parsed.value;
        case BoolKind =>
          CalcFails(op, args, parse, i);
          return 0.0, Some(NotNumber(BoolKind));
      }
      assert Coerce(args[i], parse) == Ok(x);
      CalStep(op, args, parse, i, r, x);
      r := if i == 0 then x else Combine(op, r, x);
      i := i + 1;
    }
    CalDone(op, args, parse, r);
    err := None;
  }

  /** One more argument that is a number extends the coerced prefix by it. */
  lemma CoerceAllExtends(args: seq<Val>, parse: string -> Option<real>, i: nat)
    requires i < |args| && CoerceAll(args[..i], parse).Ok? && Coerce(args[i], parse).Ok?
    ensures CoerceAll(args[..i + 1], parse) ==
      Ok(CoerceAll(args[..i], parse).value + [Coerce(args[i], parse).value])
  {
    assert args[..i + 1][..i] == args[..i];
  }

  /** Folding one more number combines it into the previous result. */
  lemma LeftFoldExtends(op: Operator, xs: seq<real>, x: real)
    requires |xs| > 0 && Foldable(op, xs) && Operable(op, x)
    ensures Foldable(op, xs + [x])
    ensures LeftFold(op, xs + [x]) == Combine(op, LeftFold(op, xs), x)
  {
    assert (xs + [x])[..|xs|] == xs;
  }

  /** An argument that is not a number decides the result: the error of
      the first such argument is the fold's error. */
  lemma {:induction false} FirstErrorAborts(args: seq<Val>, parse: string -> Option<real>, k: nat)
    requires k < |args|
    requires CoerceAll(args[..k], parse).Ok? && Coerce(args[k], parse).Err?
    ensures CoerceAll(args, parse) == Err(Coerce(args[k], parse).error)
    decreases |args|
  {
    var init := args[..|args| - 1];
    if k == |args| - 1 {
      assert init == args[..k];
    } else {
      assert init[..k] == args[..k] && init[k] == args[k];
      FirstErrorAborts(init, parse, k);
    }
  }

  /** Once an argument fails, the ones after it are never looked at:
      appending arguments, whatever they are, does not change a failed
      result and adds no requirement on the fold. */
  lemma ErrorIgnoresLaterArgs(op: Operator, args: seq<Val>, rest: seq<Val>,
                              parse: string -> Option<real>)
    requires CoerceAll(args, parse).Err? && FoldDefined(op, args, parse)
    ensures FoldDefined(op, args + rest, parse)
    ensures Calc(op, args + rest, parse) == Calc(op, args, parse)
  {
    forall j | 2 <= j <= |args| ensures (args + rest)[..j] == args[..j] {
    }
    forall j | |args| < j <= |args + rest| ensures CoerceAll((args + rest)[..j], parse).Err? {
      CoerceAllErrSticky(args, rest[..j - |args|], parse);
      assert args + rest[..j - |args|] == (args + rest)[..j];
    }
    CoerceAllErrSticky(args, rest, parse);
  }

  // ---------------------------------------------------------------------
  // What each operator computes, against independent definitions
  // ---------------------------------------------------------------------

  function Sum(xs: seq<real>): real {
    if xs == [] then 0.0 else xs[0] + Sum(xs[1..])
  }

  function Product(xs: seq<real>): real {
    if xs == [] then 1.0 else xs[0] * Product(xs[1..])
  }

  lemma {:induction false} SumSnoc(xs: seq<real>, x: real)
    ensures Sum(xs + [x]) == Sum(xs) + x
    decreases |xs|
  {
    if xs != [] {
      assert (xs + [x])[1..] == xs[1..] + [x];
      SumSnoc(xs[1..], x);
    }
  }

  lemma {:induction false} ProductSnoc(xs: seq<real>, x: real)
    ensures Product(xs + [x]) == Product(xs) * x
    decreases |xs|
  {
    if xs != [] {
      assert (xs + [x])[1..] == xs[1..] + [x];
      ProductSnoc(xs[1..], x);
    }
  }

  /** add (and sum) computes the sum of its arguments. */
  lemma {:induction false} AddIsSum(xs: seq<real>)
    requires |xs| > 0
    ensures LeftFold(Add, xs) == Sum(xs)
    decreases |xs|
  {
    if |xs| > 1 {
      var init := xs[..|xs| - 1];
      AddIsSum(init);
      SumSnoc(init, xs[|xs| - 1]);
      assert init + [xs[|xs| - 1]] == xs;
    }
  }

  /** mul computes the product of its arguments. */
  lemma {:induction false} MulIsProduct(xs: seq<real>)
    requires |xs| > 0
    ensures LeftFold(Mul, xs) == Product(xs)
    decreases |xs|
  {
    if |xs| > 1 {
      var init := xs[..|xs| - 1];
      MulIsProduct(init);
      ProductSnoc(init, xs[|xs| - 1]);
      assert init + [xs[|xs| - 1]] == xs;
    }
  }

  /** A zero factor anywhere makes the product zero. */
  lemma {:induction false} ProductWithZero(xs: seq<real>)
    requires 0.0 in xs
    ensures Product(xs) == 0.0
    decreases |xs|
  {
    if xs[0] != 0.0 {
      assert 0.0 in xs[1..];
      ProductWithZero(xs[1..]);
    }
  }

  lemma MulWithZero(xs: seq<real>)
    requires 0.0 in xs
    ensures LeftFold(Mul, xs) == 0.0
  {
    MulIsProduct(xs);
    ProductWithZero(xs);
  }

  /** sub subtracts every later argument from the first. */
  lemma {:induction false} SubIsFirstMinusSum(xs: seq<real>)
    requires |xs| > 0
    ensures LeftFold(Sub, xs) == xs[0] - Sum(xs[1..])
    decreases |xs|
  {
    if |xs| > 1 {
      var init := xs[..|xs| - 1];
      SubIsFirstMinusSum(init);
      SumSnoc(init[1..], xs[|xs| - 1]);
      assert init[1..] + [xs[|xs| - 1]] == xs[1..];
    }
  }

  /** div divides the first argument by the product of the later ones. */
  lemma {:induction false} DivIsFirstOverProduct(xs: seq<real>)
    requires |xs| > 0 && Foldable(Div, xs)
    ensures Product(xs[1..]) != 0.0
    ensures LeftFold(Div, xs) == xs[0] / Product(xs[1..])
    decreases |xs|
  {
    if |xs| > 1 {
      var init := xs[..|xs| - 1];
      var x := xs[|xs| - 1];
      assert Foldable(Div, init) by {
        forall i | 1 <= i < |init| ensures Operable(Div, init[i]) {
          assert init[i] == xs[i];
        }
      }
      assert Operable(Div, x);
      DivIsFirstOverProduct(init);
      var p := Product(init[1..]);
      ProductSnoc(init[1..], x);
      assert init[1..] + [x] == xs[1..];
      assert Product(xs[1..]) == p * x;
      DivideTwice(xs[0], p, x);
      assert LeftFold(Div, xs) == LeftFold(Div, init) / x;
    } else {
      assert xs[1..] == [];
    }
  }

  lemma DivideTwice(a: real, p: real, x: real)
    requires p != 0.0 && x != 0.0
    ensures p * x != 0.0
    ensures (a / p) / x == a / (p * x)
  {
  }

  /** The product of the natural-number exponents. */
  function ExponentProduct(xs: seq<real>): nat
    requires forall i | 0 <= i < |xs| :: 0.0 <= xs[i] && xs[i].Floor as real == xs[i]
  {
    if xs == [] then 1 else (xs[0].Floor as nat) * ExponentProduct(xs[1..])
  }

  lemma {:induction false} PowerAdd(b: real, m: nat, n: nat)
    ensures Power(b, m + n) == Power(b, m) * Power(b, n)
    decreases n
  {
    if n > 0 {
      PowerAdd(b, m, n - 1);
    }
  }

  lemma {:induction false} PowerMul(b: real, m: nat, n: nat)
    ensures Power(Power(b, m), n) == Power(b, m * n)
    decreases n
  {
    if n > 0 {
      PowerMul(b, m, n - 1);
      PowerAdd(b, m * (n - 1), m);
      assert m * (n - 1) + m == m * n;
    }
  }

  lemma {:induction false} ExponentProductSnoc(xs: seq<real>, x: real)
    requires forall i | 0 <= i < |xs| :: 0.0 <= xs[i] && xs[i].Floor as real == xs[i]
    requires 0.0 <= x && x.Floor as real == x
    ensures ExponentProduct(xs + [x]) == ExponentProduct(xs) * (x.Floor as nat)
    decreases |xs|
  {
    if xs != [] {
      assert (xs + [x])[1..] == xs[1..] + [x];
      ExponentProductSnoc(xs[1..], x);
    }
  }

  /** pow raises the first argument to the product of the later ones:
      (b ^ e1) ^ e2 == b ^ (e1 * e2). */
  lemma {:induction false} PowIsPowerOfProduct(xs: seq<real>)
    requires |xs| > 0 && Foldable(Pow, xs)
    ensures LeftFold(Pow, xs) == Power(xs[0], ExponentProduct(xs[1..]))
    decreases |xs|
  {
    if |xs| > 1 {
      var init := xs[..|xs| - 1];
      var x := xs[|xs| - 1];
      PowIsPowerOfProduct(init);
      ExponentProductSnoc(init[1..], x);
      assert init[1..] + [x] == xs[1..];
      PowerMul(xs[0], ExponentProduct(init[1..]), x.Floor as nat);
    } else {
      assert xs[1..] == [];
    }
  }

  /** Arguments that are all numbers coerce to exactly those numbers. */
  lemma {:induction false} CoerceAllNumbers(args: seq<Val>, parse: string -> Option<real>, xs: seq<real>)
    requires |xs| == |args|
    requires forall i | 0 <= i < |args| :: Coerce(args[i], parse) == Ok(xs[i])
    ensures CoerceAll(args, parse) == Ok(xs)
    decreases |args|
  {
    if args != [] {
      var n := |args| - 1;
      CoerceAllNumbers(args[..n], parse, xs[..n]);
      assert xs[..n] + [xs[n]] == xs;
    }
  }

  /** Arguments that are all numbers, and whose numbers can be folded,
      meet FoldDefined. */
  lemma FoldDefinedOfNumbers(op: Operator, args: seq<Val>, parse: string -> Option<real>, xs: seq<real>)
    requires |xs| == |args|
    requires forall i | 0 <= i < |args| :: Coerce(args[i], parse) == Ok(xs[i])
    requires Foldable(op, xs)
    ensures FoldDefined(op, args, parse) && CoerceAll(args, parse) == Ok(xs)
  {
    CoerceAllNumbers(args, parse, xs);
    forall j | 2 <= j <= |args| ensures CoerceAll(args[..j], parse) == Ok(xs[..j]) {
      CoerceAllNumbers(args[..j], parse, xs[..j]);
    }
  }

  /** div 1 "x" 0 with an unparsable "x": the fold stops at "x" and never
      reaches the zero divisor, so the call is within the model and fails
      with the parse error. */
  lemma CalParseFailureBeforeZeroDivisor(parse: string -> Option<real>)
    requires parse("x") == None
    ensures FoldDefined(Div, [Int(1), Str("x"), Int(0)], parse)
    ensures Calc(Div, [Int(1), Str("x"), Int(0)], parse) == Err(ParseFailure("x"))
  {
    var args := [Int(1), Str("x")];
    assert args[..1] == [Int(1)] && CoerceAll([Int(1)][..0], parse) == Ok([]);
    assert CoerceAll(args, parse) == Err(ParseFailure("x"));
    assert FoldDefined(Div, args, parse);
    ErrorIgnoresLaterArgs(Div, args, [Int(0)], parse);
    assert args + [Int(0)] == [Int(1), Str("x"), Int(0)];
  }

  /** The repository's tests for mul. */
  lemma CalMulScenarios(parse: string -> Option<real>)
    ensures Calc(Mul, [Int(1), Int(2), Int(3)], parse) == Ok(6.0)
    ensures Calc(Mul, [Int(1), Int(2), Int(3), Int(0)], parse) == Ok(0.0)
  {
    CoerceAllNumbers([Int(1), Int(2), Int(3)], parse, [1.0, 2.0, 3.0]);
    CoerceAllNumbers([Int(1), Int(2), Int(3), Int(0)], parse, [1.0, 2.0, 3.0, 0.0]);
    assert [1.0, 2.0, 3.0, 0.0][..3] == [1.0, 2.0, 3.0];
    assert [1.0, 2.0, 3.0][..2] == [1.0, 2.0] && [1.0, 2.0][..1] == [1.0];
  }

  /** The repository's first test for div. */
  lemma CalDivScenario(parse: string -> Option<real>)
    ensures FoldDefined(Div, [Int(1), Int(2), Int(2)], parse)
    ensures Calc(Div, [Int(1), Int(2), Int(2)], parse) == Ok(0.25)
  {
    FoldDefinedOfNumbers(Div, [Int(1), Int(2), Int(2)], parse, [1.0, 2.0, 2.0]);
    assert [1.0, 2.0, 2.0][..2] == [1.0, 2.0] && [1.0, 2.0][..1] == [1.0];
  }

  /** The repository's second test for div. */
  lemma CalDivByOnesScenario(parse: string -> Option<real>)
    ensures FoldDefined(Div, [Int(2), Int(1), Int(1), Int(1)], parse)
    ensures Calc(Div, [Int(2), Int(1), Int(1), Int(1)], parse) == Ok(2.0)
  {
    FoldDefinedOfNumbers(Div, [Int(2), Int(1), Int(1), Int(1)], parse, [2.0, 1.0, 1.0, 1.0]);
    assert [2.0, 1.0, 1.0, 1.0][..3] == [2.0, 1.0, 1.0];
    assert [2.0, 1.0, 1.0][..2] == [2.0, 1.0] && [2.0, 1.0][..1] == [2.0];
  }

  /** The repository's tests for add and sum. */
  lemma CalAddScenarios(parse: string -> Option<real>)
    ensures Calc(NumberFuncMap["add"], [Int(1), Int(2), Int(3), Int(0)], parse) == Ok(6.0)
    ensures Calc(NumberFuncMap["sum"], [Int(1), Int(2), Int(3), Int(-1), Int(1), Int(0)], parse) == Ok(6.0)
  {
    CoerceAllNumbers([Int(1), Int(2), Int(3), Int(0)], parse, [1.0, 2.0, 3.0, 0.0]);
    CoerceAllNumbers([Int(1), Int(2), Int(3), Int(-1), Int(1), Int(0)], parse,
                     [1.0, 2.0, 3.0, -1.0, 1.0, 0.0]);
    assert [1.0, 2.0, 3.0, 0.0][..3] == [1.0, 2.0, 3.0];
    assert [1.0, 2.0, 3.0][..2] == [1.0, 2.0] && [1.0, 2.0][..1] == [1.0];
    assert [1.0, 2.0, 3.0, -1.0, 1.0, 0.0][..5] == [1.0, 2.0, 3.0, -1.0, 1.0];
    assert [1.0, 2.0, 3.0, -1.0, 1.0][..4] == [1.0, 2.0, 3.0, -1.0];
    assert [1.0, 2.0, 3.0, -1.0][..3] == [1.0, 2.0, 3.0];
  }

  /** The repository's test for sub. */
  lemma CalSubScenario(parse: string -> Option<real>)
    ensures Calc(Sub, [Int(1), Int(2), Int(3)], parse) == Ok(-4.0)
  {
    CoerceAllNumbers([Int(1), Int(2), Int(3)], parse, [1.0, 2.0, 3.0]);
    assert [1.0, 2.0, 3.0][..2] == [1.0, 2.0] && [1.0, 2.0][..1] == [1.0];
  }

  /** The repository's test for pow: 2 ^ 2 ^ 2.0, folded from the left. */
  lemma CalPowScenario(parse: string -> Option<real>)
    ensures FoldDefined(Pow, [Int(2), Int(2), Real(2.0)], parse)
    ensures Calc(Pow, [Int(2), Int(2), Real(2.0)], parse) == Ok(16.0)
  {
    FoldDefinedOfNumbers(Pow, [Int(2), Int(2), Real(2.0)], parse, [2.0, 2.0, 2.0]);
    assert [2.0, 2.0, 2.0][..2] == [2.0, 2.0] && [2.0, 2.0][..1] == [2.0];
    assert Power(2.0, 2) == 4.0;
    assert Power(4.0, 2) == 16.0;
  }
}
