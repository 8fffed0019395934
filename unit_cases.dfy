/**
 * The concrete cases of unittests/test.py, stated about the model: the hand-built button,
 * sequence and wildcard matchers, the parse trees of four patterns, compiled patterns
 * against hand-built matchers, and an expression called on a whole buffer. The dispatcher
 * cases at the end follow one binding for the pattern "ab" through three buffers.
 */
module UnitCases {
  import opened Wrappers
  import opened Matchers
  import opened Grammar
  import opened Compiler
  import opened Expressions
  import opened Processing

  const K := Event(25, Down)
  const K1 := Event(26, Down)
  const K2 := Event(25, Up)
  const K3 := Event(28, Down)

  const Btn := Button(Some(25), Down)
  const Btn1 := Button(Some(26), Down)
  const Seq := Sequence([Btn, Btn1])
  const WildSeq := Sequence([Wild(Some(28))])

  /** A press target skips a leading event that is not a press. */
  lemma PressSkips(code: Option<int>, keys: seq<Event>)
    requires keys != [] && keys[0].keystate != Down
    ensures RunButton(code, Down, keys) == RunButton(code, Down, keys[1..])
  {
    assert SkipFirst(code, Down, keys) == RunButton(code, Down, keys[1..]);
  }

  /** A press target decides on a leading press. */
  lemma PressDecides(code: Option<int>, keys: seq<Event>)
    requires keys != [] && keys[0].keystate == Down
    ensures RunButton(code, Down, keys) ==
      if HasCode(keys[0], code) then MatchResult(Accept, keys[1..], []) else MatchResult(Reject, keys, [])
  {
  }

  /** A sequence of two children. */
  lemma TwoChildren(m1: Matcher, m2: Matcher, keys: seq<Event>)
    ensures var r1 := Run(m1, keys);
      RunSequence([m1, m2], keys) ==
        if r1.state == Reject then MatchResult(Reject, r1.rest, [])
        else
          var r2 := Run(m2, r1.rest);
          if r2.state == Reject then MatchResult(Reject, r2.rest, r1.captures)
          else MatchResult(r2.state, r2.rest, r1.captures + r2.captures)
  {
    assert [m1, m2][1..] == [m2];
    var r1 := Run(m1, keys);
    if r1.state != Reject {
      var r2 := Run(m2, r1.rest);
      assert RunSequence([m2], r1.rest) == (if r2.state == Reject then MatchResult(Reject, r2.rest, []) else r2);
      assert r1.captures + [] == r1.captures;
    }
  }

  /** unittests/test.py lines 69-72: a press target accepts its press, rejects another press
      without consuming it, and skips a release. */
  lemma ButtonCases()
    ensures Run(Btn, [K]) == MatchResult(Accept, [], [])
    ensures Run(Btn, [K, K1]) == MatchResult(Accept, [K1], [])
    ensures Run(Btn, [K1, K]) == MatchResult(Reject, [K1, K], [])
    ensures Run(Btn, [K2, K]) == MatchResult(Accept, [], [])
  {
    var c := Some(25);
    PressDecides(c, [K]);
    PressDecides(c, [K, K1]);
    PressDecides(c, [K1, K]);
    PressSkips(c, [K2, K]);
    assert [K2, K][1..] == [K];
  }

  /** Lines 76-78: a sequence of two buttons is Partial until the second press arrives, and
      a release after the first press is skipped. */
  lemma SequenceCasesShort()
    ensures Run(Seq, [K]) == MatchResult(Partial, [], [])
    ensures Run(Seq, [K, K1]) == MatchResult(Accept, [], [])
    ensures Run(Seq, [K, K2]) == MatchResult(Partial, [], [])
  {
    TwoChildren(Btn, Btn1, [K]);
    TwoChildren(Btn, Btn1, [K, K1]);
    TwoChildren(Btn, Btn1, [K, K2]);
    PressDecides(Some(25), [K]);
    PressDecides(Some(25), [K, K1]);
    PressDecides(Some(25), [K, K2]);
    assert [K, K1][1..] == [K1] && [K, K2][1..] == [K2];
    PressDecides(Some(26), [K1]);
    PressSkips(Some(26), [K2]);
  }

  /** Lines 79-80: a release after the second press is left over; one between the presses is
      skipped. */
  lemma SequenceCasesLong()
    ensures Run(Seq, [K, K1, K2]) == MatchResult(Accept, [K2], [])
    ensures Run(Seq, [K, K2, K1]) == MatchResult(Accept, [], [])
  {
    TwoChildren(Btn, Btn1, [K, K1, K2]);
    TwoChildren(Btn, Btn1, [K, K2, K1]);
    PressDecides(Some(25), [K, K1, K2]);
    PressDecides(Some(25), [K, K2, K1]);
    assert [K, K1, K2][1..] == [K1, K2] && [K, K2, K1][1..] == [K2, K1];
    PressDecides(Some(26), [K1, K2]);
    assert [K1, K2][1..] == [K2];
    PressSkips(Some(26), [K2, K1]);
    assert [K2, K1][1..] == [K1];
    PressDecides(Some(26), [K1]);
  }

  /** The wildcard on 28 over the buffers of lines 84-86 and 90-91. */
  lemma WildOnFour()
    ensures RunWild(Some(28), [K, K1, K2, K3]) == MatchResult(Accept, [], [[K, K1]])
  {
    var t := Some(28);
    var a := [K, K1, K2, K3];
    assert a[1..] == [K1, K2, K3] && [K1, K2, K3][1..] == [K2, K3] && [K2, K3][1..] == [K3];
    assert FirstTerminator(t, [K3]) == Some(0);
    assert FirstTerminator(t, [K2, K3]) == Some(1);
    assert FirstTerminator(t, [K1, K2, K3]) == Some(2);
    assert FirstTerminator(t, a) == Some(3);
    assert a[..3] == [K, K1, K2] && a[4..] == [];
    assert [K, K1, K2][1..] == [K1, K2] && [K1, K2][1..] == [K2] && [K2][1..] == [];
    assert Presses([K2]) == [];
    assert Presses([K1, K2]) == [K1];
    assert Presses([K, K1, K2]) == [K, K1];
  }

  lemma WildOnEarlyTerminator()
    ensures RunWild(Some(28), [K1, K3, K2, K]) == MatchResult(Accept, [K2, K], [[K1]])
  {
    var t := Some(28);
    var b := [K1, K3, K2, K];
    assert b[1..] == [K3, K2, K];
    assert FirstTerminator(t, [K3, K2, K]) == Some(0);
    assert FirstTerminator(t, b) == Some(1);
    assert b[..1] == [K1] && b[2..] == [K2, K];
    assert [K1][1..] == [];
    assert Presses([K1]) == [K1];
  }

  lemma WildWithoutTerminator()
    ensures RunWild(Some(28), [K1, K2]) == MatchResult(Partial, [], [])
  {
    var t := Some(28);
    assert [K1, K2][1..] == [K2] && [K2][1..] == [];
    assert FirstTerminator(t, []) == None;
    assert FirstTerminator(t, [K2]) == None;
    assert FirstTerminator(t, [K1, K2]) == None;
  }

  lemma WildOnReleaseThenTerminator()
    ensures RunWild(Some(28), [K2, K3]) == MatchResult(Accept, [], [[]])
  {
    var t := Some(28);
    var r := [K2, K3];
    assert r[1..] == [K3];
    assert FirstTerminator(t, [K3]) == Some(0);
    assert FirstTerminator(t, r) == Some(1);
    assert r[..1] == [K2] && r[2..] == [];
    assert [K2][1..] == [];
    assert Presses([K2]) == [];
  }

  lemma WildOnSeven()
    ensures RunWild(Some(28), [K, K1, K3, K, K1, K2, K3]) == MatchResult(Accept, [K, K1, K2, K3], [[K, K1]])
  {
    var t := Some(28);
    var d := [K, K1, K3, K, K1, K2, K3];
    assert d[1..] == [K1, K3, K, K1, K2, K3] && [K1, K3, K, K1, K2, K3][1..] == [K3, K, K1, K2, K3];
    assert FirstTerminator(t, [K3, K, K1, K2, K3]) == Some(0);
    assert FirstTerminator(t, [K1, K3, K, K1, K2, K3]) == Some(1);
    assert FirstTerminator(t, d) == Some(2);
    assert d[..2] == [K, K1] && d[3..] == [K, K1, K2, K3];
    assert [K, K1][1..] == [K1] && [K1][1..] == [];
    assert Presses([K, K1]) == [K, K1];
  }

  /** Lines 84-86: a wildcard captures the presses before the terminator and leaves what
      follows it; without a terminator it is Partial with nothing left. */
  lemma WildCases()
    ensures Run(WildSeq, [K, K1, K2, K3]) == MatchResult(Accept, [], [[K, K1]])
    ensures Run(WildSeq, [K1, K3, K2, K]) == MatchResult(Accept, [K2, K], [[K1]])
    ensures Run(WildSeq, [K1, K2]) == MatchResult(Partial, [], [])
  {
    WildOnFour();
    WildOnEarlyTerminator();
    WildWithoutTerminator();
    SingletonSequence(Wild(Some(28)), [K, K1, K2, K3]);
    SingletonSequence(Wild(Some(28)), [K1, K3, K2, K]);
    SingletonSequence(Wild(Some(28)), [K1, K2]);
  }

  /** Line 90: a two-button sequence then a wildcard. */
  lemma NestedSequenceCase()
    ensures Run(Sequence([Seq, WildSeq]), [K, K1, K2, K3]) == MatchResult(Accept, [], [[]])
  {
    WildOnReleaseThenTerminator();
    SingletonSequence(Wild(Some(28)), [K2, K3]);
    TwoChildren(Btn, Btn1, [K, K1, K2, K3]);
    PressDecides(Some(25), [K, K1, K2, K3]);
    assert [K, K1, K2, K3][1..] == [K1, K2, K3];
    PressDecides(Some(26), [K1, K2, K3]);
    assert [K1, K2, K3][1..] == [K2, K3];
    TwoChildren(Seq, WildSeq, [K, K1, K2, K3]);
    var none: seq<seq<Event>> := [];
    assert none + [[]] == [[]];
  }

  /** Line 91: a wildcard, then the sequence of line 90. */
  lemma DoublyNestedSequenceCase()
    ensures Run(Sequence([WildSeq, Sequence([Seq, WildSeq])]), [K, K1, K3, K, K1, K2, K3])
      == MatchResult(Accept, [], [[K, K1], []])
  {
    WildOnSeven();
    NestedSequenceCase();
    SingletonSequence(Wild(Some(28)), [K, K1, K3, K, K1, K2, K3]);
    TwoChildren(WildSeq, Sequence([Seq, WildSeq]), [K, K1, K3, K, K1, K2, K3]);
    assert [[K, K1]] + [[]] == [[K, K1], []];
  }

  function ButtonLiteral(name: string): Tree {
    Node("literal", [Node("button", [Leaf(name)])])
  }

  lemma LexEnd()
    ensures Lex("") == ([], "")
  {
    assert LiteralToken("") == None;
  }

  /** A single letter or digit is one literal with nothing left. */
  lemma LexOne(c: char)
    requires IsAlnum(c)
    ensures Lex([c]) == ([[c]], "")
  {
    LexEnd();
    assert [c][..1] == [c] && [c][1..] == "";
    assert LiteralToken([c]) == Some(([c], ""));
    assert Lex([c]) == ([[c]] + [], "");
    assert [[c]] + [] == [[c]];
  }

  lemma LexAb()
    ensures Lex("ab") == (["a", "b"], "")
  {
    LexOne('b');
    assert "ab"[..1] == "a" && "ab"[1..] == "b";
    assert LiteralToken("ab") == Some(("a", "b"));
    assert Lex("ab") == (["a"] + ["b"], "");
    assert ["a"] + ["b"] == ["a", "b"];
  }

  lemma LexAStarB()
    ensures Lex("a*b") == (["a", "*", "b"], "")
  {
    LexOne('b');
    assert "*b"[..1] == "*" && "*b"[1..] == "b";
    assert MatchTerminal(AlnumPattern, "*b") == None;
    assert MatchTerminal(BracketPattern, "*b") == None;
    assert LiteralToken("*b") == Some(("*", "b"));
    assert Lex("*b") == (["*"] + ["b"], "");
    assert ["*"] + ["b"] == ["*", "b"];
    assert "a*b"[..1] == "a" && "a*b"[1..] == "*b";
    assert LiteralToken("a*b") == Some(("a", "*b"));
    assert Lex("a*b") == (["a"] + ["*", "b"], "");
    assert ["a"] + ["*", "b"] == ["a", "*", "b"];
  }

  lemma WordRunEnter(rest: string)
    requires rest == "" || rest == "a"
    ensures WordRun("Enter>" + rest) == 5
  {
    var w := "Enter>" + rest;
    assert w[1..] == "nter>" + rest && w[1..][1..] == "ter>" + rest;
    assert w[1..][1..][1..] == "er>" + rest && w[1..][1..][1..][1..] == "r>" + rest;
    assert w[1..][1..][1..][1..][1..] == ">" + rest;
    assert WordRun(">" + rest) == 0;
  }

  lemma LexEnter()
    ensures Lex("<Enter>") == (["<Enter>"], "")
  {
    LexEnd();
    var text := "<Enter>";
    assert MatchTerminal(AlnumPattern, text) == None;
    assert text[1..] == "Enter>" + "";
    WordRunEnter("");
    assert text[..7] == "<Enter>" && text[7..] == "";
    assert LiteralToken(text) == Some(("<Enter>", ""));
    assert Lex(text) == (["<Enter>"] + [], "");
    assert ["<Enter>"] + [] == ["<Enter>"];
  }

  lemma LexEnterA()
    ensures Lex("<Enter>a") == (["<Enter>", "a"], "")
  {
    LexOne('a');
    var text := "<Enter>a";
    assert MatchTerminal(AlnumPattern, text) == None;
    assert text[1..] == "Enter>" + "a";
    WordRunEnter("a");
    assert text[..7] == "<Enter>" && text[7..] == "a";
    assert LiteralToken(text) == Some(("<Enter>", "a"));
    assert Lex(text) == (["<Enter>"] + ["a"], "");
    assert ["<Enter>"] + ["a"] == ["<Enter>", "a"];
  }

  /** Lines 95-102: the parse trees of "a", "ab", "a*b" and "<Enter>a", nested to the right,
      with nothing left over. */
  lemma ParseCases()
    ensures Parse("a", "sequence") == Some((Node("sequence", [ButtonLiteral("a")]), ""))
    ensures Parse("ab", "sequence") ==
      Some((Node("sequence", [ButtonLiteral("a"), Node("sequence", [ButtonLiteral("b")])]), ""))
    ensures Parse("a*b", "sequence") ==
      Some((Node("sequence", [ButtonLiteral("a"),
        Node("sequence", [Node("literal", [Node("wild", [Leaf("*")])]),
          Node("sequence", [ButtonLiteral("b")])])]), ""))
    ensures Parse("<Enter>a", "sequence") ==
      Some((Node("sequence", [ButtonLiteral("<Enter>"), Node("sequence", [ButtonLiteral("a")])]), ""))
  {
    LexOne('a');
    LexAb();
    LexAStarB();
    LexEnterA();
    ParseSequenceIsGreedy("a");
    ParseSequenceIsGreedy("ab");
    ParseSequenceIsGreedy("a*b");
    ParseSequenceIsGreedy("<Enter>a");
    assert ["a", "b"][1..] == ["b"];
    assert ["a", "*", "b"][1..] == ["*", "b"] && ["*", "b"][1..] == ["b"];
    assert ["<Enter>", "a"][1..] == ["a"];
  }

  /** The matcher `compile(parse(text)[0])` builds, when both steps succeed. */
  function CompileText(text: string, resolve: string -> Option<int>, wildcode: Option<int>): Option<Matcher> {
    match Parse(text, "sequence")
    case None => None
    case Some((tree, _)) =>
      match Compile(tree, resolve, wildcode)
      case Failure(_) => None
      case Success(m) => Some(m)
  }

  /** A pattern made of literals compiles to the nested sequence of its literals' matchers. */
  lemma CompileTextOfLiterals(text: string, resolve: string -> Option<int>, wildcode: Option<int>)
    requires Lex(text).0 != [] && Lex(text).1 == ""
    ensures CompileText(text, resolve, wildcode) == Some(Nest(LiteralMatchers(Lex(text).0, resolve, wildcode)))
  {
    ParseSequenceIsGreedy(text);
    LexSplitsGreedily(text);
    CompileSequenceTree(Lex(text).0, resolve, wildcode);
  }

  /** A sequence of one button runs exactly as the button, captures included. */
  lemma SingleButtonSequence(code: Option<int>, keys: seq<Event>)
    ensures Run(Sequence([Button(code, Down)]), keys) == Run(Button(code, Down), keys)
  {
    SingletonSequence(Button(code, Down), keys);
    RunButtonWellFormed(code, Down, keys);
  }

  lemma CompileA(resolve: string -> Option<int>)
    requires resolve("a") == Some(30)
    ensures CompileText("a", resolve, Some(28)) == Some(Sequence([Button(Some(30), Down)]))
  {
    LexOne('a');
    CompileTextOfLiterals("a", resolve, Some(28));
    assert LiteralMatchers(["a"], resolve, Some(28)) == [Button(Some(30), Down)];
  }

  lemma CompileEnter(resolve: string -> Option<int>)
    requires resolve("Enter") == Some(28)
    ensures CompileText("<Enter>", resolve, Some(28)) == Some(Sequence([Button(Some(28), Down)]))
  {
    LexEnter();
    CompileTextOfLiterals("<Enter>", resolve, Some(28));
    KeyNameEnter();
    assert LiteralMatchers(["<Enter>"], resolve, Some(28)) == [Button(Some(28), Down)];
  }

  lemma KeyNameEnter()
    ensures KeyName("<Enter>") == "Enter"
  {
    assert "<Enter>"[1..6] == "Enter";
  }

  /** The default wildcard `"<ENTER>"` names the key `ENTER`. */
  lemma DefaultWildcharNamesEnter()
    ensures StripBrackets("<ENTER>") == "ENTER"
  {
    var w := "<ENTER>";
    assert w[0] == '<' && w[|w| - 1] == '>';
    assert forall k :: 1 <= k < |w| - 1 ==> IsWordChar(w[k]);
    assert IsLiteral(w);
    StripBracketsOfLiteral(w);
    assert w[1..|w| - 1] == "ENTER";
  }

  lemma CompileAb(resolve: string -> Option<int>)
    requires resolve("a") == Some(30) && resolve("b") == Some(48)
    ensures CompileText("ab", resolve, Some(28))
      == Some(Sequence([Button(Some(30), Down), Sequence([Button(Some(48), Down)])]))
  {
    LexAb();
    CompileTextOfLiterals("ab", resolve, Some(28));
    var btnA, btnB := Button(Some(30), Down), Button(Some(48), Down);
    assert LiteralMatchers(["a", "b"], resolve, Some(28)) == [btnA, btnB];
    assert [btnA, btnB][1..] == [btnB];
  }

  lemma CompileAStarB(resolve: string -> Option<int>)
    requires resolve("a") == Some(30) && resolve("b") == Some(48)
    ensures CompileText("a*b", resolve, Some(28))
      == Some(Sequence([Button(Some(30), Down), Sequence([Wild(Some(28)), Sequence([Button(Some(48), Down)])])]))
  {
    LexAStarB();
    CompileTextOfLiterals("a*b", resolve, Some(28));
    var btnA, wild, btnB := Button(Some(30), Down), Wild(Some(28)), Button(Some(48), Down);
    var ms := [btnA, wild, btnB];
    var tokens := ["a", "*", "b"];
    assert tokens[1..] == ["*", "b"] && tokens[1..][1..] == ["b"] && tokens[1..][1..][1..] == [];
    assert LiteralMatchers(["b"], resolve, Some(28)) == [btnB];
    assert LiteralMatchers(["*", "b"], resolve, Some(28)) == [wild, btnB];
    assert LiteralMatchers(tokens, resolve, Some(28)) == ms;
    assert ms[1..] == [wild, btnB] && ms[1..][1..] == [btnB];
    assert Nest([btnB]) == Sequence([btnB]);
    assert Nest([wild, btnB]) == Sequence([wild, Sequence([btnB])]);
  }

  /** A two-child sequence whose second child is replaced by one that runs identically on
      every buffer runs identically. */
  lemma SecondChildReplaced(first: Matcher, second: Matcher, second': Matcher, keys: seq<Event>)
    requires forall ks :: Run(second, ks) == Run(second', ks)
    ensures Run(Sequence([first, second]), keys) == Run(Sequence([first, second']), keys)
  {
    TwoChildren(first, second, keys);
    TwoChildren(first, second', keys);
  }

  /** Lines 110-132: the compiled patterns "a", "<Enter>", "ab" and "a*b" run exactly as the
      hand-built combinators of the test, on every buffer (the unit test compares state and
      captures on the 3-event permutations of twelve events). */
  lemma CompileCases(resolve: string -> Option<int>, keys: seq<Event>)
    requires resolve("a") == Some(30) && resolve("b") == Some(48) && resolve("Enter") == Some(28)
    ensures var c := CompileText("a", resolve, Some(28));
      c.Some? && Run(c.value, keys) == Run(Button(Some(30), Down), keys)
    ensures var c := CompileText("<Enter>", resolve, Some(28));
      c.Some? && Run(c.value, keys) == Run(Button(Some(28), Down), keys)
    ensures var c := CompileText("ab", resolve, Some(28));
      c.Some? && Run(c.value, keys) == Run(Sequence([Button(Some(30), Down), Button(Some(48), Down)]), keys)
    ensures var c := CompileText("a*b", resolve, Some(28));
      c.Some? && Run(c.value, keys)
        == Run(Sequence([Button(Some(30), Down), Sequence([Wild(Some(28)), Button(Some(48), Down)])]), keys)
  {
    var btnA, wild, btnB := Button(Some(30), Down), Wild(Some(28)), Button(Some(48), Down);
    CompileA(resolve);
    CompileEnter(resolve);
    CompileAb(resolve);
    CompileAStarB(resolve);
    SingleButtonSequence(Some(30), keys);
    SingleButtonSequence(Some(28), keys);
    forall ks ensures Run(Sequence([btnB]), ks) == Run(btnB, ks) {
      SingleButtonSequence(Some(48), ks);
    }
    SecondChildReplaced(btnA, Sequence([btnB]), btnB, keys);
    forall ks ensures Run(Sequence([wild, Sequence([btnB])]), ks) == Run(Sequence([wild, btnB]), ks) {
      SecondChildReplaced(wild, Sequence([btnB]), btnB, ks);
    }
    SecondChildReplaced(btnA, Sequence([wild, Sequence([btnB])]), Sequence([wild, btnB]), keys);
  }

  /** The matcher of "ab" with a = 30 and b = 48. */
  const MatcherAb := Sequence([Button(Some(30), Down), Sequence([Button(Some(48), Down)])])

  /** `Expression("ab")` with a = 30 and b = 48 is the nested sequence of the two buttons. */
  lemma BuildAb(resolve: string -> Option<int>)
    requires resolve("a") == Some(30) && resolve("b") == Some(48)
    ensures var e := New("ab", "<ENTER>", resolve);
      e.Success? && e.value.compiled == Sequence([Button(Some(30), Down), Sequence([Button(Some(48), Down)])])
  {
    LexAb();
    var wildcode := resolve(StripBrackets("<ENTER>"));
    BuildAcceptsLiteralStrings("ab", wildcode, resolve);
    var btnA, btnB := Button(Some(30), Down), Button(Some(48), Down);
    assert LiteralMatchers(["a", "b"], resolve, wildcode) == [btnA, btnB];
    assert [btnA, btnB][1..] == [btnB];
  }

  /** Lines 134-140: `Expression("ab")` accepts the buffer of both keys' releases and presses,
      with no captures. */
  lemma InitCase(resolve: string -> Option<int>, render: Event -> string)
    requires resolve("a") == Some(30) && resolve("b") == Some(48)
    ensures var e := New("ab", "<ENTER>", resolve);
      && e.Success?
      && Process(e.value, [Event(30, Up), Event(30, Down), Event(48, Up), Event(48, Down)], render)
           == Verdict(Accept, [])
  {
    BuildAb(resolve);
    RunAbOnInit();
  }

  /** Each key released then pressed: both presses are found after skipping the releases. */
  lemma RunAbOnInit()
    ensures Run(MatcherAb, [Event(30, Up), Event(30, Down), Event(48, Up), Event(48, Down)]) == MatchResult(Accept, [], [])
  {
    var keys := [Event(30, Up), Event(30, Down), Event(48, Up), Event(48, Down)];
    var r1 := [Event(30, Down), Event(48, Up), Event(48, Down)];
    var r2 := [Event(48, Up), Event(48, Down)];
    TwoChildren(Button(Some(30), Down), Sequence([Button(Some(48), Down)]), keys);
    PressSkips(Some(30), keys);
    assert keys[1..] == r1;
    PressDecides(Some(30), r1);
    assert r1[1..] == r2;
    SingleButtonSequence(Some(48), r2);
    PressSkips(Some(48), r2);
    assert r2[1..] == [Event(48, Down)];
    PressDecides(Some(48), [Event(48, Down)]);
  }

  /** A press of a alone is Partial. */
  lemma RunAbOnA()
    ensures Run(MatcherAb, [Event(30, Down)]) == MatchResult(Partial, [], [])
  {
    TwoChildren(Button(Some(30), Down), Sequence([Button(Some(48), Down)]), [Event(30, Down)]);
    PressDecides(Some(30), [Event(30, Down)]);
    SingleButtonSequence(Some(48), []);
  }

  /** A press of a then b is accepted with nothing left. */
  lemma RunAbOnAb()
    ensures Run(MatcherAb, [Event(30, Down), Event(48, Down)]) == MatchResult(Accept, [], [])
  {
    var ab := [Event(30, Down), Event(48, Down)];
    TwoChildren(Button(Some(30), Down), Sequence([Button(Some(48), Down)]), ab);
    PressDecides(Some(30), ab);
    assert ab[1..] == [Event(48, Down)];
    SingleButtonSequence(Some(48), [Event(48, Down)]);
    PressDecides(Some(48), [Event(48, Down)]);
  }

  /** A press of a then an unrelated press is rejected at that press. */
  lemma RunAbOnAx()
    ensures Run(MatcherAb, [Event(30, Down), Event(99, Down)]) == MatchResult(Reject, [Event(99, Down)], [])
  {
    var ax := [Event(30, Down), Event(99, Down)];
    TwoChildren(Button(Some(30), Down), Sequence([Button(Some(48), Down)]), ax);
    PressDecides(Some(30), ax);
    assert ax[1..] == [Event(99, Down)];
    SingleButtonSequence(Some(48), [Event(99, Down)]);
    PressDecides(Some(48), [Event(99, Down)]);
  }

  /** A single binding: Accept fires it with its replies and flushes, Partial keeps the
      buffer, Reject flushes without firing. */
  lemma ScanOne(b: Binding, keys: seq<Event>, render: Event -> string)
    ensures var v := Process(b.expression, keys, render);
      Scan([b], keys, render) ==
        if v.state == Accept then Decision(Some(Invocation(b.handler, v.replies)), false)
        else if v.state == Partial then Decision(None, true)
        else Decision(None, false)
  {
    assert [b][1..] == [];
  }

  /** The dispatcher with the single binding "ab" (a = 30, b = 48): a press of a alone keeps
      the buffer, then a press of b fires the handler with no captures and flushes; a press of
      a followed by an unrelated press flushes without firing. */
  lemma DispatchCases(resolve: string -> Option<int>, render: Event -> string, h: Handler)
    requires resolve("a") == Some(30) && resolve("b") == Some(48)
    ensures var e := New("ab", "<ENTER>", resolve);
      && e.Success?
      && Scan([Binding(e.value, h)], [Event(30, Down)], render) == Decision(None, true)
      && Scan([Binding(e.value, h)], [Event(30, Down), Event(48, Down)], render) == Decision(Some(Invocation(h, [])), false)
      && Scan([Binding(e.value, h)], [Event(30, Down), Event(99, Down)], render) == Decision(None, false)
  {
    BuildAb(resolve);
    RunAbOnA();
    RunAbOnAb();
    RunAbOnAx();
    var b := Binding(New("ab", "<ENTER>", resolve).value, h);
    ScanOne(b, [Event(30, Down)], render);
    ScanOne(b, [Event(30, Down), Event(48, Down)], render);
    ScanOne(b, [Event(30, Down), Event(99, Down)], render);
  }
}
