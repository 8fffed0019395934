/**
 * `Expression` (pybd/expression.py; the older copy in expression.py differs in how the
 * wildcard terminator is given, how key names are resolved and how captured events are
 * rendered, the last two being the parameters `resolve` and `render`): a pattern compiled once, then called on
 * event buffers. `process` forces Reject when the matcher leaves events unconsumed
 * and renders every capture run to a string through the translator, a parameter
 * here (`render`).
 */
module Expressions {
  import opened Wrappers
  import opened Matchers
  import opened Grammar
  import opened Compiler

  /** Why constructing an `Expression` fails. */
  datatype ExpressionError =
    | EmptyPattern                        // the Python code binds a tuple instead of a matcher
    | Unparsable(pattern: string)         // `parse` gives (None, None) and `compile(None)` raises
    | NotValidPattern(pattern: string)    // `ValueError("Not valid pattern: ...")`
    | CompileFailed(error: CompileError)

  datatype Expression = Expression(pattern: string, wildcode: Option<int>, compiled: Matcher)

  /** The constructor once the wildcard code is known: parse the whole pattern as a
      `sequence`, refuse leftover text, compile. */
  function Build(pattern: string, wildcode: Option<int>, resolve: string -> Option<int>): Result<Expression, ExpressionError> {
    if pattern == "" then Failure(EmptyPattern)
    else match Parse(pattern, "sequence")
      case None => Failure(Unparsable(pattern))
      case Some((tree, extra)) =>
        if extra != "" then Failure(NotValidPattern(pattern))
        else match Compile(tree, resolve, wildcode)
          case Failure(e) => Failure(CompileFailed(e))
          case Success(m) => Success(Expression(pattern, wildcode, m))
  }

  /** A pattern is accepted exactly when it is a non-empty run of literals; it then compiles
      to the nested sequence of its literals' matchers. Unparsable means no literal starts
      the pattern, NotValidPattern that text follows the literals; compiling never fails. */
  lemma BuildAcceptsLiteralStrings(pattern: string, wildcode: Option<int>, resolve: string -> Option<int>)
    ensures var (tokens, extra) := Lex(pattern);
      var r := Build(pattern, wildcode, resolve);
      && (r.Success? <==> pattern != "" && extra == "")
      && (r.Success? ==>
            tokens != [] && pattern == Concat(tokens)
            && r.value == Expression(pattern, wildcode, Nest(LiteralMatchers(tokens, resolve, wildcode))))
      && (r.Failure? && pattern != "" ==> (r.error == Unparsable(pattern) <==> tokens == []))
      && (r.Failure? && pattern != "" ==> (r.error == NotValidPattern(pattern) <==> tokens != []))
  {
    var (tokens, extra) := Lex(pattern);
    ParseSequenceIsGreedy(pattern);
    LexSplitsGreedily(pattern);
    if tokens != [] {
      CompileSequenceTree(tokens, resolve, wildcode);
    } else if pattern != "" {
      assert Concat(tokens) == "";
      assert extra == pattern;
    }
    if extra == "" {
      assert pattern == Concat(tokens) + "";
    }
  }

  /** The pybd constructor: the wildcard terminator is the key named by `wildchar`,
      brackets stripped (`"<ENTER>"` by default). */
  function New(pattern: string, wildchar: string, resolve: string -> Option<int>): (r: Result<Expression, ExpressionError>)
    ensures r.Success? ==> r.value.pattern == pattern && r.value.wildcode == resolve(StripBrackets(wildchar))
  {
    Build(pattern, resolve(StripBrackets(wildchar)), resolve)
  }

  /** The constructor of expression.py: the wildcard terminator is the scancode `wildchar` (28 by default). */
  function NewWithScancode(pattern: string, wildchar: int, resolve: string -> Option<int>): (r: Result<Expression, ExpressionError>)
    ensures r.Success? ==> r.value.pattern == pattern && r.value.wildcode == Some(wildchar)
  {
    Build(pattern, Some(wildchar), resolve)
  }

  /** Every wildcard inside `m` ends on `code`. */
  predicate WildsEndOn(m: Matcher, code: Option<int>)
    decreases m
  {
    match m
    case Button(_, _) => true
    case Wild(t) => t == code
    case Sequence(children) => forall i :: 0 <= i < |children| ==> WildsEndOn(children[i], code)
  }

  lemma {:induction false} NestWildsEndOn(tokens: seq<string>, resolve: string -> Option<int>, wildcode: Option<int>)
    requires tokens != []
    ensures WildsEndOn(Nest(LiteralMatchers(tokens, resolve, wildcode)), wildcode)
    decreases |tokens|
  {
    var ms := LiteralMatchers(tokens, resolve, wildcode);
    if |tokens| > 1 {
      NestWildsEndOn(tokens[1..], resolve, wildcode);
      assert LiteralMatchers(tokens[1..], resolve, wildcode) == ms[1..];
    }
  }

  /** Every wildcard of a built expression is compiled with the expression's terminator code. */
  lemma BuiltWildsEndOnWildcode(pattern: string, wildcode: Option<int>, resolve: string -> Option<int>)
    ensures Build(pattern, wildcode, resolve).Success? ==> WildsEndOn(Build(pattern, wildcode, resolve).value.compiled, wildcode)
  {
    BuildAcceptsLiteralStrings(pattern, wildcode, resolve);
    if Build(pattern, wildcode, resolve).Success? {
      NestWildsEndOn(Lex(pattern).0, resolve, wildcode);
    }
  }

  // ---------------------------------------------------------------- process

  /** What `process` returns: the state and one rendered string per capture run. */
  datatype Verdict = Verdict(state: MatchState, replies: seq<string>)

  /** `"".join(code_to_char(key) for key in run)`. */
  function RenderRun(run: seq<Event>, render: Event -> string): string {
    if run == [] then "" else render(run[0]) + RenderRun(run[1..], render)
  }

  /** The verdict `process` gives for a matcher result: Reject when events are left over. */
  function Forced(r: MatchResult): MatchState {
    if |r.rest| > 0 then Reject else r.state
  }

  /** `process(keys)`: Accept only when the matcher accepted and consumed the whole buffer,
      Partial exactly when the matcher said Partial, Reject otherwise; one rendered string
      per capture run, in order. */
  function Process(e: Expression, keys: seq<Event>, render: Event -> string): (v: Verdict)
    ensures var r := Run(e.compiled, keys);
      && (v.state == Accept <==> r.state == Accept && r.rest == [])
      && (v.state == Partial <==> r.state == Partial)
      && (v.state == Reject <==> r.state == Reject || r.rest != [])
      && |v.replies| == |r.captures|
      && forall i :: 0 <= i < |v.replies| ==> v.replies[i] == RenderRun(r.captures[i], render)
  {
    var r := Run(e.compiled, keys);
    var replies := seq(|r.captures|, i requires 0 <= i < |r.captures| => RenderRun(r.captures[i], render));
    RunWellFormed(e.compiled, keys);
    Verdict(Forced(r), replies)
  }

  /** Calling an expression on a buffer (`__call__`), running the matcher loops. */
  method Call(e: Expression, keys: seq<Event>, render: Event -> string) returns (v: Verdict)
    ensures v == Process(e, keys, render)
  {
    var r := Evaluate(e.compiled, keys);
    var replies := seq(|r.captures|, i requires 0 <= i < |r.captures| => RenderRun(r.captures[i], render));
    v := Verdict(Forced(r), replies);
  }

  /** A built expression judges a buffer as the flat sequence of its literals' matchers
      would: the same verdict, and on Accept the same captures. */
  lemma ProcessRunsLiteralsInOrder(pattern: string, wildcode: Option<int>, resolve: string -> Option<int>,
                                   keys: seq<Event>, render: Event -> string)
    requires Build(pattern, wildcode, resolve).Success?
    ensures var flat := RunSequence(LiteralMatchers(Lex(pattern).0, resolve, wildcode), keys);
      var v := Process(Build(pattern, wildcode, resolve).value, keys, render);
      && v.state == Forced(flat)
      && (v.state == Accept ==>
            |v.replies| == |flat.captures|
            && forall i :: 0 <= i < |v.replies| ==> v.replies[i] == RenderRun(flat.captures[i], render))
  {
    BuildAcceptsLiteralStrings(pattern, wildcode, resolve);
    NestRunsLikeFlat(LiteralMatchers(Lex(pattern).0, resolve, wildcode), keys);
  }
}
