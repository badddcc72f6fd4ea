/** The symbolic bridge between buffer text and sympy (class `Sym`): the two
    parser flags the editor toggles, and the operations that parse a text,
    transform the expression and render it back as text.

    sympy itself is not part of the model. Its parser, its printer and its
    transformations are the function-valued fields of an `Engine`, and a
    sympy expression is the opaque type `Expr`; the parser answers
    `ParseError` where sympy raises an exception. */
module Symbolic {
  import opened TextReplace

  /** The parser transformations of `sympy.parsing.sympy_parser` in use. */
  datatype Transformation =
    | LambdaNotation | AutoSymbol | RepeatedDecimals | AutoNumber | FactorialNotation
    | ConvertXor

  /** sympy's `standard_transformations`. */
  const StandardTransformations: seq<Transformation> :=
    [LambdaNotation, AutoSymbol, RepeatedDecimals, AutoNumber, FactorialNotation]

  /** The transformation list that goes with the "power as ^" flag. */
  function TransformsFor(caret: bool): (r: seq<Transformation>)
    ensures ConvertXor in r <==> caret
    ensures |StandardTransformations| <= |r| && r[..|StandardTransformations|] == StandardTransformations
  {
    if caret then StandardTransformations + [ConvertXor] else StandardTransformations
  }

  /** What every parse reads: the evaluate flag, the caret flag and the
      transformation list. */
  datatype ParserConfig = ParserConfig(evaluate: bool, caret: bool, transforms: seq<Transformation>)

  /** A sympy expression. */
  type Expr

  datatype Parsed = Parsed(expr: Expr) | ParseError(msg: string)

  /** The `(ok, text)` pair every operation answers: the replacement text on
      success, the parser's diagnostic on failure. */
  datatype Reply = Reply(ok: bool, payload: string)

  /** The one-argument operations of `Sym`. The editor's menus offer eight
      of them; `Cancel`, `Apart` and `LogExpand` are not wired to any
      command. */
  datatype Op =
    | Expand | Factor | Simplify
    | TrigExpand | TrigSimp
    | PowExpandExp | PowExpandBase | PowSimp
    | Cancel | Apart
    | LogExpand

  /** sympy, as seen by the bridge. */
  datatype Engine = Engine(
    parseExpr: (string, bool, seq<Transformation>) -> Parsed,  // parse_expr(s, evaluate, transformations)
    show: Expr -> string,                                      // str(expr)
    transform: (Op, Expr) -> Expr,                             // sympy.expand, sympy.factor, ...
    collect: (Expr, string) -> Expr,                           // sympy.collect(expr, arg)
    subs: (Expr, string, string) -> Expr,                      // expr.subs(a, b)
    evalf: Expr -> Expr)                                       // expr.evalf()

  /** The configuration state of the bridge. */
  class Sym {
    var transform: seq<Transformation>
    var xor: bool
    var simp: bool

    /** The transformation list always agrees with the caret flag. */
    ghost predicate Valid()
      reads this
    {
      transform == TransformsFor(xor)
    }

    /** The flags every parse reads; under `Valid()` the transformation
        list is the one the caret flag selects. */
    function Config(): (c: ParserConfig)
      reads this
      ensures Valid() ==> c.transforms == TransformsFor(c.caret)
      ensures Valid() ==> (ConvertXor in c.transforms <==> c.caret)
    {
      ParserConfig(simp, xor, transform)
    }

    constructor ()
      ensures Valid() && xor && !simp && ConvertXor in transform
    {
      transform := StandardTransformations + [ConvertXor];
      xor := true;
      simp := false;
    }

    /** Switch evaluation during parsing on or off. */
    method SimpParse(use: bool)
      modifies this
      ensures Config() == old(Config()).(evaluate := use)
      ensures Valid() == old(Valid())
    {
      simp := use;
    }

    /** Switch between `^` and `**` for powers, in parsing and in output. */
    method PowXor(use: bool)
      modifies this
      ensures Valid() && xor == use && (ConvertXor in transform <==> use)
      ensures Config() == old(Config()).(caret := use, transforms := TransformsFor(use))
    {
      xor := use;
      if use {
        transform := StandardTransformations + [ConvertXor];
      } else {
        transform := StandardTransformations;
      }
    }
  }

  /** `_parse`: the current flags go to the parser; under the bridge's
      invariant the parser sees `convert_xor` exactly when the caret flag is
      set, so `^` is read as a power exactly when it is also printed as one. */
  function Parse(cfg: ParserConfig, eng: Engine, s: string): (r: Parsed)
    ensures cfg.transforms == TransformsFor(cfg.caret) ==>
              r == eng.parseExpr(s, cfg.evaluate, if cfg.caret then StandardTransformations + [ConvertXor]
                                                  else StandardTransformations)
  {
    eng.parseExpr(s, cfg.evaluate, cfg.transforms)
  }

  /** `_toString`: sympy's text, with every `**` turned into `^` when the
      caret flag is set. */
  function Render(cfg: ParserConfig, eng: Engine, e: Expr): (r: string)
    ensures !cfg.caret ==> r == eng.show(e)
    ensures cfg.caret ==> NoPowerToken(r) && |r| <= |eng.show(e)|
    ensures cfg.caret ==> Unstarred(r) == Unstarred(eng.show(e))
  {
    var s := eng.show(e);
    if cfg.caret then CaretPower(s) else s
  }

  /** With the caret flag set, the rendering loses nothing: turning `^` back
      into `**` gives sympy's own text, provided that text had no `^`. */
  lemma RenderRoundTrip(cfg: ParserConfig, eng: Engine, e: Expr)
    requires cfg.caret && '^' !in eng.show(e)
    ensures ReplaceAll(Render(cfg, eng, e), "^", "**", false) == eng.show(e)
  {
    CaretPowerRoundTrip(eng.show(e));
  }

  /** `_eval`: parse, transform, render. */
  function Eval(cfg: ParserConfig, eng: Engine, s: string, fn: Expr -> Expr): (r: Reply)
    ensures r.ok <==> Parse(cfg, eng, s).Parsed?
    ensures !r.ok ==> r.payload == Parse(cfg, eng, s).msg
    ensures r.ok ==> r.payload == Render(cfg, eng, fn(Parse(cfg, eng, s).expr))
    ensures r.ok && cfg.caret ==> NoPowerToken(r.payload)
  {
    match Parse(cfg, eng, s)
    case ParseError(err) => Reply(false, err)
    case Parsed(e) => Reply(true, Render(cfg, eng, fn(e)))
  }

  /** `_eval_arg`: as `Eval`, for a transformation with one extra argument. */
  function EvalArg(cfg: ParserConfig, eng: Engine, s: string, fn: (Expr, string) -> Expr, arg: string): (r: Reply)
    ensures r.ok <==> Parse(cfg, eng, s).Parsed?
    ensures !r.ok ==> r.payload == Parse(cfg, eng, s).msg
    ensures r.ok ==> r.payload == Render(cfg, eng, fn(Parse(cfg, eng, s).expr, arg))
    ensures r.ok && cfg.caret ==> NoPowerToken(r.payload)
  {
    match Parse(cfg, eng, s)
    case ParseError(err) => Reply(false, err)
    case Parsed(e) => Reply(true, Render(cfg, eng, fn(e, arg)))
  }

  /** `subs`: substitute `b` for `a` in the parsed expression. */
  function Subs(cfg: ParserConfig, eng: Engine, s: string, a: string, b: string): (r: Reply)
    ensures r.ok <==> Parse(cfg, eng, s).Parsed?
    ensures !r.ok ==> r.payload == Parse(cfg, eng, s).msg
    ensures r.ok ==> r.payload == Render(cfg, eng, eng.subs(Parse(cfg, eng, s).expr, a, b))
    ensures r.ok && cfg.caret ==> NoPowerToken(r.payload)
  {
    match Parse(cfg, eng, s)
    case ParseError(err) => Reply(false, err)
    case Parsed(e) => Reply(true, Render(cfg, eng, eng.subs(e, a, b)))
  }

  /** `evalf`: numeric evaluation of the parsed expression. */
  function Evalf(cfg: ParserConfig, eng: Engine, s: string): (r: Reply)
    ensures r.ok <==> Parse(cfg, eng, s).Parsed?
    ensures !r.ok ==> r.payload == Parse(cfg, eng, s).msg
    ensures r.ok ==> r.payload == Render(cfg, eng, eng.evalf(Parse(cfg, eng, s).expr))
    ensures r.ok && cfg.caret ==> NoPowerToken(r.payload)
  {
    match Parse(cfg, eng, s)
    case ParseError(err) => Reply(false, err)
    case Parsed(e) => Reply(true, Render(cfg, eng, eng.evalf(e)))
  }

  /** `expand`, `factor`, `simplify`, ...: `_eval` with the named operation. */
  function Run(cfg: ParserConfig, eng: Engine, op: Op, s: string): (r: Reply)
    ensures r.ok <==> Parse(cfg, eng, s).Parsed?
    ensures !r.ok ==> r.payload == Parse(cfg, eng, s).msg
    ensures r.ok ==> r.payload == Render(cfg, eng, eng.transform(op, Parse(cfg, eng, s).expr))
  {
    Eval(cfg, eng, s, e => eng.transform(op, e))
  }

  /** `collect`: `_eval_arg` with `sympy.collect`. */
  function Collect(cfg: ParserConfig, eng: Engine, s: string, arg: string): (r: Reply)
    ensures r.ok <==> Parse(cfg, eng, s).Parsed?
    ensures !r.ok ==> r.payload == Parse(cfg, eng, s).msg
    ensures r.ok ==> r.payload == Render(cfg, eng, eng.collect(Parse(cfg, eng, s).expr, arg))
    ensures r.ok && cfg.caret ==> NoPowerToken(r.payload)
  {
    EvalArg(cfg, eng, s, eng.collect, arg)
  }

  /** Two configurations with the same flags, each keeping the bridge's
      invariant, parse every text alike: the parse depends on the two flags
      only. */
  lemma ParseDeterminedByFlags(c1: ParserConfig, c2: ParserConfig, eng: Engine, s: string)
    requires c1.transforms == TransformsFor(c1.caret) && c2.transforms == TransformsFor(c2.caret)
    requires c1.evaluate == c2.evaluate && c1.caret == c2.caret
    ensures Parse(c1, eng, s) == Parse(c2, eng, s)
  {
  }

  /** On a parse failure the transformation is never applied: the answer is
      the same whichever transformation was asked for. */
  lemma ParseFailureShortCircuits(cfg: ParserConfig, eng: Engine, s: string,
                                  f: Expr -> Expr, g: Expr -> Expr, h: (Expr, string) -> Expr, arg: string)
    requires Parse(cfg, eng, s).ParseError?
    ensures Eval(cfg, eng, s, f) == Eval(cfg, eng, s, g) == EvalArg(cfg, eng, s, h, arg)
    ensures Eval(cfg, eng, s, f) == Reply(false, Parse(cfg, eng, s).msg)
  {
  }
}
