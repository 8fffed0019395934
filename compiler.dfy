/**
 * `Expression.compile` (pybd/expression.py, expression.py): lowering a parse tree to
 * a matcher. A key name is resolved by the translator, which is a parameter here
 * (`resolve`); the wildcard terminator is the code `wildcode`.
 */
module Compiler {
  import opened Wrappers
  import opened Matchers
  import opened Grammar

  /** `ValueError("No such method: ...")`, or a tree of the wrong shape, on which the
      Python code fails with an IndexError or an AttributeError. */
  datatype CompileError = NoSuchMethod(name: string) | MalformedTree

  predicate IsBracket(c: char) {
    c == '<' || c == '>'
  }

  /** `s.lstrip("<>")`: the longest suffix of `s` that does not start with a bracket. */
  function StripLeft(s: string): (r: string)
    ensures |r| <= |s| && (r != [] ==> !IsBracket(r[0]))
  {
    if s != [] && IsBracket(s[0]) then StripLeft(s[1..]) else s
  }

  /** What `lstrip` cuts off is the brackets at the start, and the rest is kept. */
  lemma {:induction false} StripLeftCutsBrackets(s: string)
    ensures var r := StripLeft(s);
      && r == s[|s| - |r|..]
      && forall k :: 0 <= k < |s| - |r| ==> IsBracket(s[k])
    decreases |s|
  {
    if s != [] && IsBracket(s[0]) {
      StripLeftCutsBrackets(s[1..]);
      var r := StripLeft(s[1..]);
      assert forall k :: 1 <= k < |s| - |r| ==> s[k] == s[1..][k - 1];
    }
  }

  /** `s.rstrip("<>")`: the longest prefix of `s` that does not end with a bracket. */
  function StripRight(s: string): (r: string)
    ensures |r| <= |s| && r == s[..|r|] && (r != [] ==> !IsBracket(r[|r| - 1]))
  {
    if s != [] && IsBracket(s[|s| - 1]) then StripRight(s[..|s| - 1]) else s
  }

  /** What `rstrip` cuts off is the brackets at the end. */
  lemma {:induction false} StripRightCutsBrackets(s: string)
    ensures forall k :: |StripRight(s)| <= k < |s| ==> IsBracket(s[k])
    decreases |s|
  {
    if s != [] && IsBracket(s[|s| - 1]) {
      StripRightCutsBrackets(s[..|s| - 1]);
      var r := StripRight(s[..|s| - 1]);
      assert forall k :: |r| <= k < |s| - 1 ==> s[k] == s[..|s| - 1][k];
    }
  }

  /** `s.strip("<>")`: drop every `<` and `>` from both ends. */
  function StripBrackets(s: string): (r: string)
    ensures |r| <= |s|
    ensures r == [] || (!IsBracket(r[0]) && !IsBracket(r[|r| - 1]))
  {
    StripRight(StripLeft(s))
  }

  /** `strip` keeps the middle: its result is a slice `s[i..j]` with only brackets before
      `i` and after `j`, so exactly the brackets at the two ends are dropped. */
  lemma StripBracketsKeepsMiddle(s: string)
    ensures exists i, j ::
              && 0 <= i <= j <= |s| && StripBrackets(s) == s[i..j]
              && (forall k :: 0 <= k < i ==> IsBracket(s[k]))
              && (forall k :: j <= k < |s| ==> IsBracket(s[k]))
  {
    var left := StripLeft(s);
    var r := StripRight(left);
    StripLeftCutsBrackets(s);
    StripRightCutsBrackets(left);
    var i := |s| - |left|;
    var j := i + |r|;
    assert r == s[i..j];
    assert forall k :: j <= k < |s| ==> s[k] == left[k - i];
  }

  /** The key name a button literal stands for: the literal itself, or what is between its brackets. */
  function KeyName(token: string): string {
    if |token| >= 2 && token[0] == '<' then token[1..|token| - 1] else token
  }

  /** Stripping the brackets of a button literal leaves its key name. */
  lemma StripBracketsOfLiteral(token: string)
    requires IsLiteral(token) && token != "*"
    ensures StripBrackets(token) == KeyName(token)
  {
    if |token| >= 2 {
      var name := token[1..|token| - 1];
      assert StripLeft(token) == StripLeft(token[1..]);
      if name == [] {
        assert token[1..] == ">";
        assert StripLeft(">") == StripLeft("");
      } else {
        assert IsWordChar(token[1]);
        assert StripLeft(token[1..]) == token[1..];
        assert token[1..][..|token[1..]| - 1] == name;
        assert StripRight(token[1..]) == StripRight(name);
        assert IsWordChar(name[|name| - 1]) by { assert name[|name| - 1] == token[|token| - 2]; }
        assert StripRight(name) == name;
      }
    }
  }

  /** `compile(parsed)`: dispatch on the node name. */
  function Compile(tree: Tree, resolve: string -> Option<int>, wildcode: Option<int>): (r: Result<Matcher, CompileError>)
    decreases tree
  {
    match tree
    case Leaf(s) => if s == "" then Failure(MalformedTree) else Failure(NoSuchMethod(s[..1]))
    case Node(name, params) =>
      if name == "literal" then
        if params == [] then Failure(MalformedTree) else Compile(params[0], resolve, wildcode)
      else if name == "button" then
        if params == [] || !params[0].Leaf? then Failure(MalformedTree)
        else Success(Button(resolve(StripBrackets(params[0].text)), Down))
      else if name == "wild" then Success(Wild(wildcode))
      else if name == "sequence" then
        match CompileAll(params, resolve, wildcode)
        case Success(children) => Success(Sequence(children))
        case Failure(e) => Failure(e)
      else Failure(NoSuchMethod(name))
  }

  /** `[self.compile(param) for param in params]`: in order, the first failure wins. */
  function CompileAll(trees: seq<Tree>, resolve: string -> Option<int>, wildcode: Option<int>): (r: Result<seq<Matcher>, CompileError>)
    ensures r.Success? ==> |r.value| == |trees|
    decreases trees
  {
    if trees == [] then Success([])
    else match Compile(trees[0], resolve, wildcode)
      case Failure(e) => Failure(e)
      case Success(m) =>
        match CompileAll(trees[1..], resolve, wildcode)
        case Failure(e) => Failure(e)
        case Success(ms) => Success([m] + ms)
  }

  /** Compiling the children of a sequence node succeeds exactly when every child compiles,
      giving their matchers in order; otherwise the error is that of the first child that
      fails. */
  lemma {:induction false} CompileAllPointwise(trees: seq<Tree>, resolve: string -> Option<int>, wildcode: Option<int>)
    ensures var r := CompileAll(trees, resolve, wildcode);
      && (r.Success? <==> forall i :: 0 <= i < |trees| ==> Compile(trees[i], resolve, wildcode).Success?)
      && (r.Success? ==> forall i :: 0 <= i < |trees| ==> r.value[i] == Compile(trees[i], resolve, wildcode).value)
      && (r.Failure? ==> exists i :: 0 <= i < |trees| && Compile(trees[i], resolve, wildcode) == Failure(r.error)
                            && forall j :: 0 <= j < i ==> Compile(trees[j], resolve, wildcode).Success?)
    decreases |trees|
  {
    if trees != [] {
      var tail := trees[1..];
      CompileAllPointwise(tail, resolve, wildcode);
      assert forall i :: 0 < i < |trees| ==> trees[i] == tail[i - 1];
      var r := CompileAll(trees, resolve, wildcode);
      var head := Compile(trees[0], resolve, wildcode);
      if head.Success? && CompileAll(tail, resolve, wildcode).Failure? {
        var i :| 0 <= i < |tail| && Compile(tail[i], resolve, wildcode) == Failure(r.error)
          && forall j :: 0 <= j < i ==> Compile(tail[j], resolve, wildcode).Success?;
        assert Compile(trees[i + 1], resolve, wildcode) == Failure(r.error);
      }
      if head.Failure? {
        assert Compile(trees[0], resolve, wildcode) == Failure(r.error);
      }
    }
  }

  /** The matcher a literal compiles to. */
  function LiteralMatcher(token: string, resolve: string -> Option<int>, wildcode: Option<int>): Matcher {
    if token == "*" then Wild(wildcode) else Button(resolve(KeyName(token)), Down)
  }

  function LiteralMatchers(tokens: seq<string>, resolve: string -> Option<int>, wildcode: Option<int>): (ms: seq<Matcher>)
    ensures |ms| == |tokens|
    ensures forall i :: 0 <= i < |tokens| ==> ms[i] == LiteralMatcher(tokens[i], resolve, wildcode)
  {
    if tokens == [] then [] else [LiteralMatcher(tokens[0], resolve, wildcode)] + LiteralMatchers(tokens[1..], resolve, wildcode)
  }

  /** The right-nested sequences `sequence(m0, sequence(m1, ... sequence(mn)))`. */
  function Nest(ms: seq<Matcher>): Matcher
    requires ms != []
  {
    if |ms| == 1 then Sequence([ms[0]]) else Sequence([ms[0], Nest(ms[1..])])
  }

  /** A literal's tree compiles to the literal's matcher. */
  lemma CompileLiteral(token: string, resolve: string -> Option<int>, wildcode: Option<int>)
    requires IsLiteral(token)
    ensures Compile(LiteralTree(token), resolve, wildcode) == Success(LiteralMatcher(token, resolve, wildcode))
  {
    if token != "*" {
      StripBracketsOfLiteral(token);
    }
  }

  /** Every tree the parser builds compiles without error, to the nested sequence of
      its literals' matchers: a button of the resolved key name, or a wildcard on `wildcode`. */
  lemma {:induction false} CompileSequenceTree(tokens: seq<string>, resolve: string -> Option<int>, wildcode: Option<int>)
    requires tokens != []
    requires forall i :: 0 <= i < |tokens| ==> IsLiteral(tokens[i])
    ensures Compile(SequenceTree(tokens), resolve, wildcode) == Success(Nest(LiteralMatchers(tokens, resolve, wildcode)))
  {
    var ms := LiteralMatchers(tokens, resolve, wildcode);
    var t := tokens[0];
    CompileLiteral(t, resolve, wildcode);
    if |tokens| > 1 {
      CompileSequenceTree(tokens[1..], resolve, wildcode);
      assert LiteralMatchers(tokens[1..], resolve, wildcode) == ms[1..];
      var rest := SequenceTree(tokens[1..]);
      CompileAllPrepend(LiteralTree(t), [rest], resolve, wildcode);
      CompileAllPrepend(rest, [], resolve, wildcode);
      assert [LiteralTree(t)] + [rest] == [LiteralTree(t), rest];
      assert [rest] + [] == [rest];
      assert CompileAll([], resolve, wildcode) == Success([]);
      assert Compile(rest, resolve, wildcode) == Success(Nest(ms[1..]));
      assert [Nest(ms[1..])] + [] == [Nest(ms[1..])];
      assert CompileAll([rest], resolve, wildcode) == Success([Nest(ms[1..])]);
      assert [ms[0]] + [Nest(ms[1..])] == [ms[0], Nest(ms[1..])];
      assert CompileAll([LiteralTree(t), rest], resolve, wildcode) == Success([ms[0], Nest(ms[1..])]);
      assert SequenceTree(tokens) == Node("sequence", [LiteralTree(t), rest]);
      assert Nest(ms) == Sequence([ms[0], Nest(ms[1..])]);
    } else {
      CompileAllPrepend(LiteralTree(t), [], resolve, wildcode);
      assert [LiteralTree(t)] + [] == [LiteralTree(t)];
      assert CompileAll([], resolve, wildcode) == Success([]);
      assert [ms[0]] + [] == [ms[0]];
      assert CompileAll([LiteralTree(t)], resolve, wildcode) == Success([ms[0]]);
      assert SequenceTree(tokens) == Node("sequence", [LiteralTree(t)]);
    }
  }

  lemma CompileAllPrepend(tree: Tree, trees: seq<Tree>, resolve: string -> Option<int>, wildcode: Option<int>)
    ensures CompileAll([tree] + trees, resolve, wildcode) ==
      match Compile(tree, resolve, wildcode)
      case Failure(e) => Failure(e)
      case Success(m) =>
        match CompileAll(trees, resolve, wildcode)
        case Failure(e') => Failure(e')
        case Success(ms) => Success([m] + ms)
  {
    assert ([tree] + trees)[0] == tree;
    assert ([tree] + trees)[1..] == trees;
  }

  /** Equal up to captures, which only agree when nothing rejected. */
  predicate SameVerdict(r: MatchResult, s: MatchResult) {
    r.state == s.state && r.rest == s.rest && (r.state != Reject ==> r.captures == s.captures)
  }

  /** The nested sequences the compiler builds run like one flat sequence of the same
      matchers: same state, same remainder, and the same captures unless they reject
      (an inner sequence that rejects drops the captures gathered inside it). */
  lemma {:induction false} NestRunsLikeFlat(ms: seq<Matcher>, keys: seq<Event>)
    requires ms != []
    ensures SameVerdict(Run(Nest(ms), keys), RunSequence(ms, keys))
    decreases |ms|
  {
    if |ms| == 1 {
      assert [ms[0]] == ms;
    } else {
      var inner := Nest(ms[1..]);
      assert Nest(ms) == Sequence([ms[0], inner]);
      var first := Run(ms[0], keys);
      if first.state != Reject {
        NestRunsLikeFlat(ms[1..], first.rest);
        assert [ms[0], inner][1..] == [inner];
        var r := Run(inner, first.rest);
        assert RunSequence([inner], first.rest) == if r.state == Reject then MatchResult(Reject, r.rest, []) else r;
      }
    }
  }
}
