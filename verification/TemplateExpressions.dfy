/** Template expressions of the instruction set description: evaluation substitutes arguments for template
    parameters and folds constants, once for every layer of slot inheritance. */
module TemplateExpressions {
  import opened Status

  datatype Operator = Add | Subtract | Multiply | Divide

  /** A function is evaluated on the values of its arguments, some of which may have failed. */
  type Evaluator = seq<Result<int>> -> Result<int>

  datatype Expr =
    | Const(value: int)
    | Param(position: nat)
    | SlotConstant(expr: Expr)
    | Negate(operand: Expr)
    | Binary(op: Operator, lhs: Expr, rhs: Expr)
    | Function(evaluator: Evaluator, arguments: seq<Expr>)

  // ----- arithmetic -----

  function Abs(a: int): nat {
    if a < 0 then -a else a
  }

  /** Division rounds toward zero. */
  function Quotient(a: int, b: int): int
    requires b != 0
  {
    if (a < 0) == (b < 0) then Abs(a) / Abs(b) else -(Abs(a) / Abs(b))
  }

  /** An operand that failed fails the operation, the left one first. */
  function Operate(op: Operator, a: Result<int>, b: Result<int>): Result<int> {
    if a.Err? then a
    else if b.Err? then b
    else
      match op
      case Add => Ok(a.value + b.value)
      case Subtract => Ok(a.value - b.value)
      case Multiply => Ok(a.value * b.value)
      case Divide => if b.value == 0 then Err(Internal) else Ok(Quotient(a.value, b.value))
  }

  function Opposite(a: Result<int>): Result<int> {
    if a.Err? then a else Ok(-a.value)
  }

  /** The only function the description language offers. */
  function AbsoluteValue(values: seq<Result<int>>): Result<int> {
    if |values| != 1 then Err(Internal)
    else if values[0].Err? then values[0]
    else Ok(Abs(values[0].value))
  }

  // ----- the operations -----

  predicate IsConstant(e: Expr) {
    match e
    case Const(_) => true
    case Param(_) => false
    case SlotConstant(x) => IsConstant(x)
    case Negate(x) => IsConstant(x)
    case Binary(_, l, r) => IsConstant(l) && IsConstant(r)
    case Function(_, args) => AllConstant(args)
  }

  predicate AllConstant(es: seq<Expr>) {
    es == [] || (IsConstant(es[0]) && AllConstant(es[1..]))
  }

  function GetValue(e: Expr): Result<int> {
    match e
    case Const(v) => Ok(v)
    case Param(_) => Err(Internal)
    case SlotConstant(x) => GetValue(x)
    case Negate(x) => Opposite(GetValue(x))
    case Binary(op, l, r) => Operate(op, GetValue(l), GetValue(r))
    case Function(f, args) => if AllConstant(args) then f(GetValues(args)) else Err(Internal)
  }

  function GetValues(es: seq<Expr>): seq<Result<int>> {
    if es == [] then [] else [GetValue(es[0])] + GetValues(es[1..])
  }

  /** A new expression with the arguments in place of the parameters; without arguments parameters stay.
      Operations on constants are folded, functions are not. */
  function Evaluate(e: Expr, args: Option<seq<Expr>>): Result<Expr>
    decreases if args.Some? then 1 else 0, e, 1
  {
    match e
    case Const(v) => Ok(Const(v))
    case Param(position) =>
      (match args
       case None => Ok(e)
       case Some(actual) =>
         if position >= |actual| then Err(Internal)
         else if IsConstant(actual[position]) then Fold(GetValue(actual[position]))
         else Evaluate(actual[position], None))
    case SlotConstant(x) => Evaluate(x, args)
    case Negate(x) =>
      var operand := Evaluate(x, args);
      if operand.Err? then operand
      else if IsConstant(operand.value) then Fold(Opposite(GetValue(operand.value)))
      else Ok(Negate(operand.value))
    case Binary(op, l, r) =>
      var lhs := Evaluate(l, args);
      if lhs.Err? then lhs
      else
        var rhs := Evaluate(r, args);
        if rhs.Err? then rhs
        else if IsConstant(lhs.value) && IsConstant(rhs.value) then Fold(Operate(op, GetValue(lhs.value), GetValue(rhs.value)))
        else Ok(Binary(op, lhs.value, rhs.value))
    case Function(f, arguments) =>
      var evaluated := EvaluateList(arguments, args);
      if evaluated.Err? then Err(evaluated.error) else Ok(Function(f, evaluated.value))
  }

  function EvaluateList(es: seq<Expr>, args: Option<seq<Expr>>): Result<seq<Expr>>
    decreases if args.Some? then 1 else 0, es, 0
  {
    if es == [] then Ok([])
    else
      var first := Evaluate(es[0], args);
      if first.Err? then Err(first.error)
      else
        var rest := EvaluateList(es[1..], args);
        if rest.Err? then rest else Ok([first.value] + rest.value)
  }

  function Fold(value: Result<int>): Result<Expr> {
    match value case Ok(v) => Ok(Const(v)) case Err(error) => Err(error)
  }

  // ----- meaning -----

  /** The value of an expression when the parameters have the given values; a parameter without one has none. */
  function Meaning(e: Expr, binding: seq<Result<int>>): Result<int> {
    match e
    case Const(v) => Ok(v)
    case Param(position) => if position < |binding| then binding[position] else Err(Internal)
    case SlotConstant(x) => Meaning(x, binding)
    case Negate(x) => Opposite(Meaning(x, binding))
    case Binary(op, l, r) => Operate(op, Meaning(l, binding), Meaning(r, binding))
    case Function(f, args) => f(Meanings(args, binding))
  }

  function Meanings(es: seq<Expr>, binding: seq<Result<int>>): (values: seq<Result<int>>)
    ensures |values| == |es| && forall i | 0 <= i < |es| :: values[i] == Meaning(es[i], binding)
  {
    if es == [] then [] else [Meaning(es[0], binding)] + Meanings(es[1..], binding)
  }

  /** What the parameters stand for: the arguments in the context they come from, or the parameters themselves. */
  function Bind(args: Option<seq<Expr>>, binding: seq<Result<int>>): seq<Result<int>> {
    match args case None => binding case Some(actual) => Meanings(actual, binding)
  }

  /** A constant expression means its value, in every context; other expressions have no value by themselves. */
  lemma {:induction false} ValueOfConstant(e: Expr, binding: seq<Result<int>>)
    ensures IsConstant(e) ==> GetValue(e) == Meaning(e, binding)
    ensures !IsConstant(e) ==> GetValue(e).Err?
    decreases e, 1
  {
    match e
    case Const(_) =>
    case Param(_) =>
    case SlotConstant(x) => ValueOfConstant(x, binding);
    case Negate(x) => ValueOfConstant(x, binding);
    case Binary(_, l, r) => ValueOfConstant(l, binding); ValueOfConstant(r, binding);
    case Function(_, args) => ValuesOfConstants(args, binding);
  }

  lemma {:induction false} ValuesOfConstants(es: seq<Expr>, binding: seq<Result<int>>)
    ensures AllConstant(es) ==> GetValues(es) == Meanings(es, binding)
    decreases es, 0
  {
    if es != [] {
      ValueOfConstant(es[0], binding);
      ValuesOfConstants(es[1..], binding);
    }
  }

  /** What is evaluated keeps its meaning: the result means in every outer context what the expression means
      when each parameter is bound to the meaning of its argument there, errors included. */
  lemma {:induction false} EvaluateKeepsMeaning(e: Expr, args: Option<seq<Expr>>, binding: seq<Result<int>>)
    requires Evaluate(e, args).Ok?
    ensures Meaning(Evaluate(e, args).value, binding) == Meaning(e, Bind(args, binding))
    decreases if args.Some? then 1 else 0, e, 1
  {
    match e
    case Const(_) =>
    case Param(position) =>
      if args.Some? {
        var actual := args.value[position];
        ValueOfConstant(actual, binding);
        if !IsConstant(actual) { EvaluateKeepsMeaning(actual, None, binding); }
      }
    case SlotConstant(x) => EvaluateKeepsMeaning(x, args, binding);
    case Negate(x) =>
      EvaluateKeepsMeaning(x, args, binding);
      ValueOfConstant(Evaluate(x, args).value, binding);
    case Binary(_, l, r) =>
      EvaluateKeepsMeaning(l, args, binding);
      EvaluateKeepsMeaning(r, args, binding);
      ValueOfConstant(Evaluate(l, args).value, binding);
      ValueOfConstant(Evaluate(r, args).value, binding);
    case Function(_, arguments) => EvaluateListKeepsMeaning(arguments, args, binding);
  }

  lemma {:induction false} EvaluateListKeepsMeaning(es: seq<Expr>, args: Option<seq<Expr>>, binding: seq<Result<int>>)
    requires EvaluateList(es, args).Ok?
    ensures Meanings(EvaluateList(es, args).value, binding) == Meanings(es, Bind(args, binding))
    decreases if args.Some? then 1 else 0, es, 0
  {
    if es != [] {
      EvaluateKeepsMeaning(es[0], args, binding);
      EvaluateListKeepsMeaning(es[1..], args, binding);
      var first, rest := Evaluate(es[0], args).value, EvaluateList(es[1..], args).value;
      assert ([first] + rest)[1..] == rest;
    }
  }

  /** What the operators compute: evaluation of an operation whose operands evaluate to a and b. Division rounds toward
      zero, so that the remainder is shorter than the divisor and has the sign of the dividend; by zero it fails. */
  lemma {:induction false} OperatorsCompute(op: Operator, l: Expr, r: Expr, args: Option<seq<Expr>>, a: int, b: int)
    requires Evaluate(l, args).Ok? && GetValue(Evaluate(l, args).value) == Ok(a)
    requires Evaluate(r, args).Ok? && GetValue(Evaluate(r, args).value) == Ok(b)
    ensures var result := Evaluate(Binary(op, l, r), args);
            match op
            case Add => result == Ok(Const(a + b))
            case Subtract => result == Ok(Const(a - b))
            case Multiply => result == Ok(Const(a * b))
            case Divide =>
              if b == 0 then result == Err(Internal)
              else
                && result.Ok? && result.value.Const?
                && var remainder := a - b * result.value.value;
                   && (if b < 0 then b < remainder < -b else -b < remainder < b)
                   && (remainder == 0 || (remainder < 0 <==> a < 0))
    ensures Evaluate(Negate(l), args) == Ok(Const(-a))
  {
    ValueOfConstant(Evaluate(l, args).value, []);
    ValueOfConstant(Evaluate(r, args).value, []);
    if op == Divide && b != 0 { QuotientRounds(a, b); }
  }

  lemma {:induction false} QuotientRounds(a: int, b: int)
    requires b != 0
    ensures var remainder := a - b * Quotient(a, b);
            && (if b < 0 then b < remainder < -b else -b < remainder < b)
            && (remainder == 0 || (remainder < 0 <==> a < 0))
  {
    QuotientProduct(a, b);
    SmallRemainder(Abs(a), Abs(b));
    var product := Abs(b) * (Abs(a) / Abs(b));
    assert a - b * Quotient(a, b) == if a < 0 then a + product else a - product;
  }

  lemma {:induction false} SmallRemainder(x: nat, y: nat)
    requires y > 0
    ensures 0 <= x - y * (x / y) < y
  {
    assert x == y * (x / y) + x % y;
  }

  lemma {:induction false} QuotientProduct(a: int, b: int)
    requires b != 0
    ensures b * Quotient(a, b) == if a < 0 then -(Abs(b) * (Abs(a) / Abs(b))) else Abs(b) * (Abs(a) / Abs(b))
  {
    Opposites(Abs(b), Abs(a) / Abs(b));
  }

  lemma {:induction false} Opposites(y: int, q: int)
    ensures (-y) * q == y * -q == -(y * q) && (-y) * (-q) == y * q
  {
  }

  /** A function that fails when one of its arguments has failed. */
  ghost predicate Strict(f: Evaluator) {
    forall values: seq<Result<int>>, i | 0 <= i < |values| && values[i].Err? :: f(values).Err?
  }

  ghost predicate AllStrict(e: Expr) {
    match e
    case Const(_) => true
    case Param(_) => true
    case SlotConstant(x) => AllStrict(x)
    case Negate(x) => AllStrict(x)
    case Binary(_, l, r) => AllStrict(l) && AllStrict(r)
    case Function(f, args) => Strict(f) && EachStrict(args)
  }

  ghost predicate EachStrict(es: seq<Expr>) {
    es == [] || (AllStrict(es[0]) && EachStrict(es[1..]))
  }

  lemma {:induction false} StrictAt(es: seq<Expr>, i: nat)
    requires EachStrict(es) && i < |es|
    ensures AllStrict(es[i])
  {
    if i > 0 { StrictAt(es[1..], i - 1); }
  }

  /** The absolute value needs exactly one argument, and fails when that has failed. */
  lemma {:induction false} AbsoluteValueIsStrict()
    ensures Strict(AbsoluteValue)
    ensures forall values: seq<Result<int>> :: AbsoluteValue(values).Ok? <==> |values| == 1 && values[0].Ok?
    ensures forall values: seq<Result<int>> :: AbsoluteValue(values).Err? ==> AbsoluteValue(values) == if |values| == 1 then values[0] else Err(Internal)
    ensures forall x: int :: x >= 0 ==> AbsoluteValue([Ok(x)]) == AbsoluteValue([Ok(-x)]) == Ok(x)
  {
  }

  ghost predicate StrictArguments(args: Option<seq<Expr>>) {
    args.Some? ==> EachStrict(args.value)
  }

  /** Evaluation fails only for an expression that has no value in any context. */
  lemma {:induction false} FailureIsFinal(e: Expr, args: Option<seq<Expr>>, binding: seq<Result<int>>)
    requires Evaluate(e, args).Err? && AllStrict(e) && StrictArguments(args)
    ensures Meaning(e, Bind(args, binding)).Err?
    decreases if args.Some? then 1 else 0, e, 1
  {
    match e
    case Param(position) =>
      if args.Some? && position < |args.value| {
        var actual := args.value[position];
        StrictAt(args.value, position);
        ValueOfConstant(actual, binding);
        if !IsConstant(actual) { FailureIsFinal(actual, None, binding); }
      }
    case SlotConstant(x) => FailureIsFinal(x, args, binding);
    case Negate(x) =>
      if Evaluate(x, args).Err? {
        FailureIsFinal(x, args, binding);
      } else {
        EvaluateKeepsMeaning(x, args, binding);
        ValueOfConstant(Evaluate(x, args).value, binding);
      }
    case Binary(_, l, r) =>
      if Evaluate(l, args).Err? {
        FailureIsFinal(l, args, binding);
      } else if Evaluate(r, args).Err? {
        FailureIsFinal(r, args, binding);
      } else {
        EvaluateKeepsMeaning(l, args, binding);
        EvaluateKeepsMeaning(r, args, binding);
        ValueOfConstant(Evaluate(l, args).value, binding);
        ValueOfConstant(Evaluate(r, args).value, binding);
      }
    case Function(f, arguments) =>
      var i := FailureInList(arguments, args, binding);
      assert Meanings(arguments, Bind(args, binding))[i].Err?;
  }

  lemma {:induction false} FailureInList(es: seq<Expr>, args: Option<seq<Expr>>, binding: seq<Result<int>>) returns (i: nat)
    requires EvaluateList(es, args).Err? && EachStrict(es) && StrictArguments(args)
    ensures i < |es| && Meaning(es[i], Bind(args, binding)).Err?
    decreases if args.Some? then 1 else 0, es, 0
  {
    if Evaluate(es[0], args).Err? {
      FailureIsFinal(es[0], args, binding);
      i := 0;
    } else {
      var j := FailureInList(es[1..], args, binding);
      i := j + 1;
    }
  }

  /** An expression without parameters that means the given value, and whose evaluation fails if the value does. */
  function Literal(value: Result<int>): Expr {
    match value
    case Ok(v) => Const(v)
    case Err(error) => Binary(Add, Function(values => Err(error), []), Const(0))
  }

  function Literals(values: seq<Result<int>>): seq<Expr> {
    if values == [] then [] else [Literal(values[0])] + Literals(values[1..])
  }

  lemma {:induction false} LiteralsMean(values: seq<Result<int>>, binding: seq<Result<int>>)
    ensures EachStrict(Literals(values)) && Meanings(Literals(values), binding) == values
  {
    if values != [] {
      LiteralsMean(values[1..], binding);
      var rest := Literals(values[1..]);
      assert ([Literal(values[0])] + rest)[1..] == rest;
      assert [values[0]] + values[1..] == values;
      LiteralMeans(values[0], binding);
    }
  }

  lemma {:induction false} LiteralMeans(value: Result<int>, binding: seq<Result<int>>)
    ensures AllStrict(Literal(value)) && Meaning(Literal(value), binding) == value
  {
    if value.Err? {
      var f := Literal(value).lhs.evaluator;
      assert Strict(f);
      assert EachStrict([]) && AllStrict(Literal(value).lhs) && AllStrict(Literal(value).rhs);
    }
  }

  lemma {:induction false} LiteralsFail(values: seq<Result<int>>, i: nat)
    requires i < |values| && values[i].Err?
    ensures EvaluateList(Literals(values), None).Err?
  {
    var rest := Literals(values[1..]);
    assert ([Literal(values[0])] + rest)[1..] == rest;
    LiteralEvaluates(values[0]);
    if i > 0 { LiteralsFail(values[1..], i - 1); }
  }

  lemma {:induction false} LiteralEvaluates(value: Result<int>)
    ensures Evaluate(Literal(value), None).Err? <==> value.Err?
  {
    if value.Err? {
      assert Literal(value).lhs == Function(Literal(value).lhs.evaluator, []);
      assert EvaluateList([], None) == Ok([]);
      assert Evaluate(Literal(value).lhs, None) == Ok(Literal(value).lhs);
    }
  }

  /** Calls of a function that evaluation refuses never have a value exactly when the function is strict. */
  lemma {:induction false} StrictIff(f: Evaluator, binding: seq<Result<int>>)
    ensures Strict(f) <==> forall args | EachStrict(args) && EvaluateList(args, None).Err? :: Meaning(Function(f, args), binding).Err?
  {
    if Strict(f) {
      forall args | EachStrict(args) && EvaluateList(args, None).Err?
        ensures Meaning(Function(f, args), binding).Err?
      {
        FailureIsFinal(Function(f, args), None, binding);
      }
    } else {
      var values: seq<Result<int>>, i :| 0 <= i < |values| && values[i].Err? && f(values).Ok?;
      LiteralsMean(values, binding);
      LiteralsFail(values, i);
      assert Meaning(Function(f, Literals(values)), binding) == f(values);
    }
  }

  /** The converse fails: an expression without a value in any context may pass evaluation unnoticed. */
  lemma {:induction false} SilentFailure(binding: seq<Result<int>>)
    ensures var e := Binary(Divide, Param(0), Const(0));
            Evaluate(e, None) == Ok(e) && Meaning(e, binding).Err?
  {
  }

  // ----- layers of inheritance -----

  /** Evaluation through the layers of inheritance, the innermost arguments first. */
  function EvaluateLayers(e: Expr, layers: seq<seq<Expr>>): Result<Expr>
    decreases layers
  {
    if layers == [] then Ok(e)
    else
      var result := Evaluate(e, Some(layers[0]));
      if result.Err? then result else EvaluateLayers(result.value, layers[1..])
  }

  /** The composed binding: each argument has its meaning in the layers around it. */
  function BindLayers(layers: seq<seq<Expr>>, binding: seq<Result<int>>): seq<Result<int>> {
    if layers == [] then binding else Meanings(layers[0], BindLayers(layers[1..], binding))
  }

  /** Evaluating layer by layer means the same as evaluating once with the composed binding. */
  lemma {:induction false} LayersKeepMeaning(e: Expr, layers: seq<seq<Expr>>, binding: seq<Result<int>>)
    requires EvaluateLayers(e, layers).Ok?
    ensures Meaning(EvaluateLayers(e, layers).value, binding) == Meaning(e, BindLayers(layers, binding))
    decreases layers
  {
    if layers != [] {
      LayersKeepMeaning(Evaluate(e, Some(layers[0])).value, layers[1..], binding);
      EvaluateKeepsMeaning(e, Some(layers[0]), BindLayers(layers[1..], binding));
    }
  }

  ghost predicate StrictLayers(layers: seq<seq<Expr>>) {
    forall i | 0 <= i < |layers| :: EachStrict(layers[i])
  }

  /** Evaluation and folding introduce no functions. */
  lemma {:induction false} EvaluateStrict(e: Expr, args: Option<seq<Expr>>)
    requires Evaluate(e, args).Ok? && AllStrict(e) && StrictArguments(args)
    ensures AllStrict(Evaluate(e, args).value)
    decreases if args.Some? then 1 else 0, e, 1
  {
    match e
    case Const(_) =>
    case Param(position) =>
      if args.Some? {
        StrictAt(args.value, position);
        if !IsConstant(args.value[position]) { EvaluateStrict(args.value[position], None); }
      }
    case SlotConstant(x) => EvaluateStrict(x, args);
    case Negate(x) => EvaluateStrict(x, args);
    case Binary(_, l, r) => EvaluateStrict(l, args); EvaluateStrict(r, args);
    case Function(_, arguments) => EvaluateListStrict(arguments, args);
  }

  lemma {:induction false} EvaluateListStrict(es: seq<Expr>, args: Option<seq<Expr>>)
    requires EvaluateList(es, args).Ok? && EachStrict(es) && StrictArguments(args)
    ensures EachStrict(EvaluateList(es, args).value)
    decreases if args.Some? then 1 else 0, es, 0
  {
    if es != [] {
      EvaluateStrict(es[0], args);
      EvaluateListStrict(es[1..], args);
      var first, rest := Evaluate(es[0], args).value, EvaluateList(es[1..], args).value;
      assert ([first] + rest)[1..] == rest;
    }
  }

  /** If evaluation fails in some layer, the expression has no value under any binding of the outermost one. */
  lemma {:induction false} LayerFailureIsFinal(e: Expr, layers: seq<seq<Expr>>, binding: seq<Result<int>>)
    requires EvaluateLayers(e, layers).Err? && AllStrict(e) && StrictLayers(layers)
    ensures Meaning(e, BindLayers(layers, binding)).Err?
    decreases layers
  {
    var outer := BindLayers(layers[1..], binding);
    var result := Evaluate(e, Some(layers[0]));
    if result.Err? {
      FailureIsFinal(e, Some(layers[0]), outer);
    } else {
      EvaluateStrict(e, Some(layers[0]));
      LayerFailureIsFinal(result.value, layers[1..], binding);
      EvaluateKeepsMeaning(e, Some(layers[0]), outer);
    }
  }

  /** When no parameter is left, the value computed is the meaning under the composed binding. */
  lemma {:induction false} FinalValue(e: Expr, layers: seq<seq<Expr>>, binding: seq<Result<int>>)
    requires EvaluateLayers(e, layers).Ok? && IsConstant(EvaluateLayers(e, layers).value)
    ensures GetValue(EvaluateLayers(e, layers).value) == Meaning(e, BindLayers(layers, binding))
  {
    LayersKeepMeaning(e, layers, binding);
    ValueOfConstant(EvaluateLayers(e, layers).value, binding);
  }

  // ----- folding -----

  /** No operation is left whose operands are all constant; functions stay as they are. */
  predicate Folded(e: Expr) {
    match e
    case Const(_) => true
    case Param(_) => true
    case SlotConstant(_) => false
    case Negate(x) => Folded(x) && !IsConstant(x)
    case Binary(_, l, r) => Folded(l) && Folded(r) && !(IsConstant(l) && IsConstant(r))
    case Function(_, args) => AllFolded(args)
  }

  predicate AllFolded(es: seq<Expr>) {
    es == [] || (Folded(es[0]) && AllFolded(es[1..]))
  }

  /** Constant operations are collapsed everywhere, so a constant result is a number or a function of constants. */
  lemma {:induction false} EvaluateFolds(e: Expr, args: Option<seq<Expr>>)
    requires Evaluate(e, args).Ok?
    ensures Folded(Evaluate(e, args).value)
    ensures IsConstant(Evaluate(e, args).value) ==> Evaluate(e, args).value.Const? || Evaluate(e, args).value.Function?
    decreases if args.Some? then 1 else 0, e, 1
  {
    match e
    case Const(_) =>
    case Param(position) =>
      if args.Some? && !IsConstant(args.value[position]) { EvaluateFolds(args.value[position], None); }
    case SlotConstant(x) => EvaluateFolds(x, args);
    case Negate(x) => EvaluateFolds(x, args);
    case Binary(_, l, r) => EvaluateFolds(l, args); EvaluateFolds(r, args);
    case Function(_, arguments) => EvaluateListFolds(arguments, args);
  }

  lemma {:induction false} EvaluateListFolds(es: seq<Expr>, args: Option<seq<Expr>>)
    requires EvaluateList(es, args).Ok?
    ensures AllFolded(EvaluateList(es, args).value)
    decreases if args.Some? then 1 else 0, es, 0
  {
    if es != [] {
      EvaluateFolds(es[0], args);
      EvaluateListFolds(es[1..], args);
      var first, rest := Evaluate(es[0], args).value, EvaluateList(es[1..], args).value;
      assert ([first] + rest)[1..] == rest;
    }
  }
}
