/**
 * The pattern grammar of `Expression` and its recursive-descent parser
 * (`grammar`, `parse`, `parse_seq` in pybd/expression.py and expression.py).
 *
 *   sequence := literal sequence | literal
 *   literal  := button | wild
 *   button   := [0-9a-zA-Z] | <[0-9a-zA-Z_]*>
 *   wild     := [*]
 *
 * The grammar is a table from a rule name to its alternatives; an atom that is not
 * a rule name is a regular expression matched at the start of the text. Alternatives
 * are tried in order and the first that succeeds wins. A parse tree is the list
 * `[rule, child, ...]` of the Python code, with the matched text of a terminal as a leaf.
 */
module Grammar {
  import opened Wrappers

  datatype Tree = Leaf(text: string) | Node(name: string, children: seq<Tree>)

  const AlnumPattern := "[0-9a-zA-Z]"
  const BracketPattern := "<[0-9a-zA-Z_]*>"
  const StarPattern := "[*]"

  const Grammar: map<string, seq<seq<string>>> := map[
    "literal" := [["button"], ["wild"]],
    "button" := [[AlnumPattern], [BracketPattern]],
    "sequence" := [["literal", "sequence"], ["literal"]],
    "wild" := [[StarPattern]]
  ]

  /** The height of a rule above the terminals; every alternative starts with a lower atom,
      which is why the parser terminates on this grammar. */
  function Rank(atom: string): nat {
    if atom == "sequence" then 3
    else if atom == "literal" then 2
    else if atom == "button" || atom == "wild" then 1
    else 0
  }

  function HeadRank(variant: seq<string>): nat {
    if variant == [] then 0 else Rank(variant[0])
  }

  lemma GrammarRanked(atom: string, i: nat)
    requires atom in Grammar && i < |Grammar[atom]|
    ensures Grammar[atom][i] != [] && HeadRank(Grammar[atom][i]) < Rank(atom)
  {
  }

  // ---------------------------------------------------------------- terminals

  predicate IsAlnum(c: char) {
    '0' <= c <= '9' || 'a' <= c <= 'z' || 'A' <= c <= 'Z'
  }

  predicate IsWordChar(c: char) {
    IsAlnum(c) || c == '_'
  }

  /** Length of the longest prefix of `s` made of `[0-9a-zA-Z_]`. */
  function WordRun(s: string): (n: nat)
    ensures n <= |s|
    ensures forall j :: 0 <= j < n ==> IsWordChar(s[j])
    ensures n < |s| ==> !IsWordChar(s[n])
  {
    if s == [] || !IsWordChar(s[0]) then 0 else 1 + WordRun(s[1..])
  }

  /** `re.match(atom, text)` for the three patterns of the grammar: the matched prefix and the rest. */
  function MatchTerminal(atom: string, text: string): (r: Option<(string, string)>)
    ensures r.Some? ==> |r.value.0| >= 1 && text == r.value.0 + r.value.1
  {
    if atom == AlnumPattern then
      if |text| >= 1 && IsAlnum(text[0]) then Some((text[..1], text[1..])) else None
    else if atom == BracketPattern then
      if |text| >= 1 && text[0] == '<' then
        var n := WordRun(text[1..]);
        if n + 1 < |text| && text[n + 1] == '>' then Some((text[..n + 2], text[n + 2..])) else None
      else None
    else if atom == StarPattern then
      if |text| >= 1 && text[0] == '*' then Some((text[..1], text[1..])) else None
    else None
  }

  // ---------------------------------------------------------------- parser

  /** `s` is what is left of the text `t` once a prefix has been consumed: the text
      counterpart of `Matchers.IsSuffix`, kept on `string` so the parser's proofs need
      no generic sequence reasoning. */
  ghost predicate IsStrSuffix(s: string, t: string) {
    |s| <= |t| && s == t[|t| - |s|..]
  }

  /** `parse(text, atom)`: a tree and the unparsed rest, or `None` for `(None, None)`. */
  function Parse(text: string, atom: string): (r: Option<(Tree, string)>)
    ensures r.Some? ==> IsStrSuffix(r.value.1, text) && |r.value.1| < |text|
    decreases |text|, Rank(atom), 2, 0
  {
    if atom in Grammar then ParseVariants(atom, 0, text)
    else match MatchTerminal(atom, text)
      case None => None
      case Some((token, rest)) => Some((Leaf(token), rest))
  }

  /** The loop over `grammar[atom]` from alternative `i` on: the first alternative that parses wins. */
  function ParseVariants(atom: string, i: nat, text: string): (r: Option<(Tree, string)>)
    requires atom in Grammar && i <= |Grammar[atom]|
    ensures r.Some? ==> IsStrSuffix(r.value.1, text) && |r.value.1| < |text|
    decreases |text|, Rank(atom), 1, |Grammar[atom]| - i
  {
    if i == |Grammar[atom]| then None
    else
      GrammarRanked(atom, i);
      match ParseSeq(Grammar[atom][i], text)
      case Some((trees, rest)) => Some((Node(atom, trees), rest))
      case None => ParseVariants(atom, i + 1, text)
  }

  /** `parse_seq(seq, text)`: parse the atoms of one alternative one after another. */
  function ParseSeq(variant: seq<string>, text: string): (r: Option<(seq<Tree>, string)>)
    ensures r.Some? ==> IsStrSuffix(r.value.1, text) && |r.value.0| == |variant|
    ensures r.Some? && variant != [] ==> |r.value.1| < |text|
    decreases |text|, HeadRank(variant), 3, 0
  {
    if variant == [] then Some(([], text))
    else match Parse(text, variant[0])
      case None => None
      case Some((tree, rest)) =>
        match ParseSeq(variant[1..], rest)
        case None => None
        case Some((trees, rest')) =>
          assert text[|text| - |rest'|..] == rest[|rest| - |rest'|..];
          Some(([tree] + trees, rest'))
  }

  /** `parse_seq`'s state after some atoms: the trees so far glued to what the remaining atoms give. */
  function Glue(trees: seq<Tree>, later: Option<(seq<Tree>, string)>): Option<(seq<Tree>, string)> {
    match later
    case None => None
    case Some((more, rest)) => Some((trees + more, rest))
  }

  /** The loop of `parse`: try each alternative of a rule in order. */
  method ParseAtom(text: string, atom: string) returns (r: Option<(Tree, string)>)
    ensures r == Parse(text, atom)
    decreases |text|, Rank(atom), 2, 0
  {
    if atom in Grammar {
      var variants := Grammar[atom];
      var i := 0;
      while i < |variants|
        invariant 0 <= i <= |variants|
        invariant ParseVariants(atom, i, text) == Parse(text, atom)
      {
        GrammarRanked(atom, i);
        var parsed := ParseSequenceOf(variants[i], text);
        if parsed.Some? {
          return Some((Node(atom, parsed.value.0), parsed.value.1));
        }
        i := i + 1;
      }
      return None;
    }
    r := match MatchTerminal(atom, text)
      case None => None
      case Some((token, rest)) => Some((Leaf(token), rest));
  }

  lemma ParseSeqCons(variant: seq<string>, text: string)
    requires variant != []
    ensures ParseSeq(variant, text) ==
      match Parse(text, variant[0])
      case None => None
      case Some((tree, rest)) => Glue([tree], ParseSeq(variant[1..], rest))
  {
  }

  lemma GlueGlue(a: seq<Tree>, b: seq<Tree>, later: Option<(seq<Tree>, string)>)
    ensures Glue(a, Glue(b, later)) == Glue(a + b, later)
  {
    if later.Some? {
      assert a + (b + later.value.0) == (a + b) + later.value.0;
    }
  }

  lemma GlueNothing(later: Option<(seq<Tree>, string)>)
    ensures Glue([], later) == later
  {
    if later.Some? {
      assert [] + later.value.0 == later.value.0;
    }
  }

  /** The loop of `parse_seq`: parse each atom on what the previous one left, stop at the first failure. */
  method ParseSequenceOf(variant: seq<string>, text: string) returns (r: Option<(seq<Tree>, string)>)
    ensures r == ParseSeq(variant, text)
    decreases |text|, HeadRank(variant), 3, 0
  {
    var result: seq<Tree> := [];
    var rest := text;
    var k := 0;
    assert variant[k..] == variant;
    GlueNothing(ParseSeq(variant, text));
    while k < |variant|
      invariant 0 <= k <= |variant|
      invariant |rest| <= |text| && (k == 0 ==> rest == text) && (k > 0 ==> |rest| < |text|)
      invariant Glue(result, ParseSeq(variant[k..], rest)) == ParseSeq(variant, text)
    {
      assert variant[k..][1..] == variant[k + 1..];
      ParseSeqCons(variant[k..], rest);
      var parsed := ParseAtom(rest, variant[k]);
      if parsed.None? {
        return None;
      }
      GlueGlue(result, [parsed.value.0], ParseSeq(variant[k + 1..], parsed.value.1));
      result := result + [parsed.value.0];
      rest := parsed.value.1;
      k := k + 1;
    }
    assert result + [] == result;
    return Some((result, rest));
  }

  // ---------------------------------------------------------------- what the parser accepts

  /** A literal of the pattern language: one letter or digit, `<name>` with a name made of
      letters, digits and `_`, or `*`. */
  predicate IsLiteral(token: string) {
    (|token| == 1 && IsAlnum(token[0]))
    || token == "*"
    || (|token| >= 2 && token[0] == '<' && token[|token| - 1] == '>'
        && forall j :: 1 <= j < |token| - 1 ==> IsWordChar(token[j]))
  }

  /** The literal at the start of `text`, as the `literal` rule finds it. */
  function LiteralToken(text: string): (r: Option<(string, string)>)
    ensures r.Some? ==> |r.value.0| >= 1 && text == r.value.0 + r.value.1
  {
    match MatchTerminal(AlnumPattern, text)
    case Some(m) => Some(m)
    case None =>
      match MatchTerminal(BracketPattern, text)
      case Some(m) => Some(m)
      case None => MatchTerminal(StarPattern, text)
  }

  /** `LiteralToken` finds a literal exactly when the text starts with one, and that literal. */
  lemma LiteralTokenIsLiteral(text: string)
    ensures LiteralToken(text).Some? ==> IsLiteral(LiteralToken(text).value.0)
    ensures LiteralToken(text).None? ==> forall n :: 0 < n <= |text| ==> !IsLiteral(text[..n])
  {
    if LiteralToken(text).None? {
      forall n | 0 < n <= |text| ensures !IsLiteral(text[..n]) {
        var p := text[..n];
        if |p| >= 2 && p[0] == '<' {
          assert text[0] == '<';
        }
      }
    } else {
      var tok := LiteralToken(text).value.0;
      if MatchTerminal(AlnumPattern, text).None? && MatchTerminal(BracketPattern, text).Some? {
        var w := WordRun(text[1..]);
        assert tok == text[..w + 2];
        forall j | 1 <= j < |tok| - 1 ensures IsWordChar(tok[j]) {
          assert tok[j] == text[1..][j - 1];
        }
      }
    }
  }

  /** Splits off literals from the start of `text` for as long as there is one. */
  function Lex(text: string): (r: (seq<string>, string))
    decreases |text|
  {
    match LiteralToken(text)
    case None => ([], text)
    case Some((token, rest)) =>
      var (tokens, remainder) := Lex(rest);
      ([token] + tokens, remainder)
  }

  function Concat(tokens: seq<string>): string {
    if tokens == [] then "" else tokens[0] + Concat(tokens[1..])
  }

  /** Lexing splits `text` into literals followed by a remainder that starts with no literal. */
  lemma {:induction false} LexSplitsGreedily(text: string)
    ensures var (tokens, remainder) := Lex(text);
      text == Concat(tokens) + remainder
      && (forall i :: 0 <= i < |tokens| ==> IsLiteral(tokens[i]))
      && (forall n :: 0 < n <= |remainder| ==> !IsLiteral(remainder[..n]))
    decreases |text|
  {
    LiteralTokenIsLiteral(text);
    match LiteralToken(text)
    case None =>
    case Some((token, rest)) =>
      LexSplitsGreedily(rest);
      var (tokens, remainder) := Lex(rest);
      assert ([token] + tokens)[1..] == tokens;
      assert text == token + (Concat(tokens) + remainder);
  }

  function LiteralTree(token: string): Tree {
    Node("literal", [if token == "*" then Node("wild", [Leaf(token)]) else Node("button", [Leaf(token)])])
  }

  /** The right-nested tree of `sequence := literal sequence | literal` over some literals. */
  function SequenceTree(tokens: seq<string>): Tree
    requires tokens != []
  {
    if |tokens| == 1 then Node("sequence", [LiteralTree(tokens[0])])
    else Node("sequence", [LiteralTree(tokens[0]), SequenceTree(tokens[1..])])
  }

  /** An alternative of one atom yields that atom's tree. */
  lemma ParseSeqSingle(atom: string, text: string)
    ensures ParseSeq([atom], text) ==
      match Parse(text, atom)
      case None => None
      case Some((tree, rest)) => Some(([tree], rest))
  {
    assert [atom][1..] == [];
    assert [atom][0] == atom;
    match Parse(text, atom)
    case None =>
    case Some((tree, rest)) =>
      assert ParseSeq([], rest) == Some(([], rest));
      assert [tree] + [] == [tree];
  }

  /** A terminal atom yields its match as a leaf. */
  lemma ParseTerminal(atom: string, text: string)
    requires atom in {AlnumPattern, BracketPattern, StarPattern}
    ensures Parse(text, atom) ==
      match MatchTerminal(atom, text)
      case None => None
      case Some((token, rest)) => Some((Leaf(token), rest))
  {
    assert atom !in Grammar;
  }

  /** The tree of a rule whose chosen alternative is a single atom. */
  function OneChild(rule: string, parsed: Option<(Tree, string)>): Option<(Tree, string)> {
    match parsed
    case None => None
    case Some((tree, rest)) => Some((Node(rule, [tree]), rest))
  }

  /** A rule of two single-atom alternatives. */
  lemma ParseTwoChoices(rule: string, first: string, second: string, text: string)
    requires rule in Grammar && Grammar[rule] == [[first], [second]]
    ensures Parse(text, rule) ==
      if Parse(text, first).Some? then OneChild(rule, Parse(text, first)) else OneChild(rule, Parse(text, second))
  {
    assert Parse(text, rule) == ParseVariants(rule, 0, text);
    assert Grammar[rule][0] == [first] && Grammar[rule][1] == [second];
    ParseSeqSingle(first, text);
    if Parse(text, first).None? {
      assert ParseVariants(rule, 0, text) == ParseVariants(rule, 1, text);
      ParseSeqSingle(second, text);
      if Parse(text, second).None? {
        assert ParseVariants(rule, 1, text) == ParseVariants(rule, 2, text);
      }
    }
  }

  lemma ParseButton(text: string)
    ensures Parse(text, "button") ==
      match MatchTerminal(AlnumPattern, text)
      case Some((token, rest)) => Some((Node("button", [Leaf(token)]), rest))
      case None =>
        match MatchTerminal(BracketPattern, text)
        case Some((token, rest)) => Some((Node("button", [Leaf(token)]), rest))
        case None => None
  {
    ParseTwoChoices("button", AlnumPattern, BracketPattern, text);
    ParseTerminal(AlnumPattern, text);
    ParseTerminal(BracketPattern, text);
  }

  lemma ParseWild(text: string)
    ensures Parse(text, "wild") ==
      match MatchTerminal(StarPattern, text)
      case Some((token, rest)) => Some((Node("wild", [Leaf(token)]), rest))
      case None => None
  {
    ParseSeqSingle(StarPattern, text);
    ParseTerminal(StarPattern, text);
    assert ParseVariants("wild", 1, text) == None;
    assert Parse(text, "wild") == ParseVariants("wild", 0, text);
  }

  lemma ParseLiteral(text: string)
    ensures Parse(text, "literal") ==
      match LiteralToken(text)
      case Some((token, rest)) => Some((LiteralTree(token), rest))
      case None => None
  {
    ParseTwoChoices("literal", "button", "wild", text);
    ParseButton(text);
    ParseWild(text);
    var star := MatchTerminal(StarPattern, text);
    if star.Some? {
      assert star.value.0 == "*";
    }
    var alnum := MatchTerminal(AlnumPattern, text);
    if alnum.Some? {
      assert alnum.value.0 != "*";
    }
    var bracket := MatchTerminal(BracketPattern, text);
    if bracket.Some? {
      assert bracket.value.0[0] == '<';
      assert bracket.value.0 != "*";
    }
  }

  /** One step of `sequence := literal sequence | literal`. */
  lemma ParseSequenceStep(text: string)
    ensures Parse(text, "sequence") ==
      match Parse(text, "literal")
      case None => None
      case Some((head, rest)) =>
        match Parse(rest, "sequence")
        case Some((tail, remainder)) => Some((Node("sequence", [head, tail]), remainder))
        case None => Some((Node("sequence", [head]), rest))
  {
    assert Parse(text, "sequence") == ParseVariants("sequence", 0, text);
    var long, short := Grammar["sequence"][0], Grammar["sequence"][1];
    assert long == ["literal", "sequence"] && short == ["literal"];
    assert long[1..] == ["sequence"];
    ParseSeqSingle("literal", text);
    ParseSeqCons(long, text);
    assert ParseVariants("sequence", 2, text) == None;
    match Parse(text, "literal")
    case None =>
      assert ParseSeq(long, text) == None;
      assert ParseSeq(short, text) == None;
      assert ParseVariants("sequence", 0, text) == ParseVariants("sequence", 1, text);
      assert ParseVariants("sequence", 1, text) == ParseVariants("sequence", 2, text);
    case Some((head, rest)) =>
      ParseSeqSingle("sequence", rest);
      assert ParseSeq(long, text) == Glue([head], ParseSeq(["sequence"], rest));
      if Parse(rest, "sequence").Some? {
        var tail := Parse(rest, "sequence").value.0;
        assert [head] + [tail] == [head, tail];
        assert ParseVariants("sequence", 0, text) == Some((Node("sequence", [head, tail]), Parse(rest, "sequence").value.1));
      } else {
        assert ParseSeq(long, text) == None;
        assert ParseVariants("sequence", 0, text) == ParseVariants("sequence", 1, text);
        assert ParseSeq(short, text) == Some(([head], rest));
      }
  }

  /** `parse(text)` fails exactly when no literal starts the text; otherwise it returns the
      right-nested sequence tree over the longest run of literals, with the rest of the text. */
  lemma {:induction false} ParseSequenceIsGreedy(text: string)
    ensures Parse(text, "sequence") ==
      var (tokens, remainder) := Lex(text);
      if tokens == [] then None else Some((SequenceTree(tokens), remainder))
    decreases |text|
  {
    ParseSequenceStep(text);
    ParseLiteral(text);
    match LiteralToken(text)
    case None =>
    case Some((token, rest)) =>
      ParseSequenceIsGreedy(rest);
      var (tokens, remainder) := Lex(rest);
      assert ([token] + tokens)[0] == token;
      assert tokens != [] ==> ([token] + tokens)[1..] == tokens;
  }
}
