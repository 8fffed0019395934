# PyBd key-sequence recognizer, in Dafny

PyBd is a daemon that watches keyboard events and runs a command when the recent key presses
match a configured pattern. This project models the recognizer at its core and proves
properties of that model:

- **Matchers** (`matchers.dfy`). An event is a `(scancode, keystate)` pair. A matcher maps an
  event buffer to a tri-state verdict (Accept, Reject, Partial), the unconsumed remainder and
  the captured runs of events. There are three kinds: `button` (one key, skipping noise),
  `wild` (collects presses up to a terminator key) and `sequence` (runs its children one
  after another). The closures pybd's Python code builds are the `Matcher` datatype, and `Run` is
  their meaning. The loops of `sequence` and `wild` are methods proved equal to `Run`.
- **Pattern grammar and parser** (`grammar.dfy`). `sequence := literal sequence | literal`,
  `literal := button | wild`, `button := [0-9a-zA-Z] | <[0-9a-zA-Z_]*>`, `wild := *`. The
  grammar is a table; the parser tries the alternatives in order. `parse` and `parse_seq` are
  functions, and their loops are methods proved equal to them. `Lex` states what the parser
  accepts: the greedy run of literals at the start of the text.
- **Compiler** (`compiler.dfy`). Lowers a parse tree to matchers. Every tree the parser
  builds compiles to the right-nested sequence of its literals' matchers, and that nesting
  runs like one flat sequence.
- **Expression** (`expression.dfy`). The constructor validates the pattern. `process` forces
  Reject when events are left over and renders each capture run. Two constructors are
  modelled: the one in pybd/expression.py names the wildcard terminator by key name, and the
  one in expression.py gives its scancode. The copies also differ in how captured events are
  rendered (pybd/expression.py:40 against expression.py:38) and how key names are resolved
  (pybd/expression.py:107 against expression.py:100-101); the model takes both as the
  parameters `render` and `resolve`, and otherwise one model serves both copies.
- **Dispatcher** (`processor.dfy`). `Processor` is a class holding the event buffer, the
  ordered `(expression, handler)` bindings and a log of the handler calls made.
  `HandleEvent` is proved against `Scan`, the function of one pass over the bindings.
  `LoadExpressions` appends one binding per configured pattern.
- **Configuration helpers** (`config.dfy`). `d_dict` lookup, and `split_header` built on a
  model of `str.split` with an explicit separator.
- **Unit cases** (`unit_cases.dfy`). The concrete expectations of unittests/test.py, stated
  as lemmas about the model.

Key names and rendering come from evdev and the X server. They are parameters here:
`resolve: string -> Option<int>` maps a key name to its code, or to `None` when the name is
unknown, and `render: Event -> string` renders an event.

The model follows the code in three places where a reader might expect otherwise:

- `handle_event` (pybd/processor.py:43-55) has no reset key and catches no handler exception.
- A key name that does not resolve compiles to a button of code `None`, which no event
  matches, so that button never accepts. It does not raise an error.
- A press-target button that rejects leaves the buffer as it is after the skipped events.

## Model

| member | source | states |
|---|---|---|
| Matchers.RunButton | pybd/expression.py:63-76 | `button(code, target)` applied to a buffer. An empty buffer is Partial. For a press target, an event of another keystate is skipped and a press of another code rejects. For any other target, an event of another keystate rejects and one of another code is skipped. An event with the code and the target is consumed with Accept. PressButtonDecidesOnFirstPress, OtherButtonDecidesOnFirstStop and RunButtonWellFormed characterize it. |
| Matchers.SkipFirst | pybd/expression.py:68-74 | `_ignore`: drop the first event and match the rest. It exists for RunButton's recursion, which is characterized there. |
| Matchers.RunWild | pybd/expression.py:91-100 | `wild(terminator)` applied to a buffer: Accept at the first press of the terminator, leaving what follows and capturing the presses before it as one run; Partial with nothing left when there is none. MatchWild, RunWildWellFormed and WildCaptureExcludesTerminator characterize it. |
| Matchers.RunSequence | pybd/expression.py:78-89 | `sequence(*children)` applied to a buffer: each child runs on the previous remainder; the first Reject ends it with that child's remainder and the captures of the children before it; otherwise the last child's state and remainder, with all captures in order. MatchSequence, RunSequenceAppend, SingletonSequence and RunSequenceWellFormed characterize it. |
| Matchers.Run | pybd/expression.py:63-100 | The meaning of a compiled matcher: the button, wildcard or sequence function by its kind. Evaluate computes it and RunWellFormed states its invariant. |
| Matchers.PressButtonDecidesOnFirstPress | pybd/expression.py:63-76 | A press-target button decides on the first press: Accept consuming exactly that press when it has the code; Reject leaving the buffer from that press on when it has another code; Partial with an empty remainder when there is no press. The older copy has the same code at expression.py:61-74. |
| Matchers.OtherButtonDecidesOnFirstStop | pybd/expression.py:69-75 | A button with any other target rejects at the first event of another keystate, keeping the buffer from it. It skips same-keystate events of other codes, and accepts the first event with the code, consuming it. |
| Matchers.RunButtonWellFormed | pybd/expression.py:63-76 | A button never captures. Its remainder is a suffix of the buffer, and it is empty on Partial. |
| Matchers.RunWildWellFormed | pybd/expression.py:91-100 | The wildcard never rejects. Its remainder is a suffix of the buffer, and it is empty on Partial. |
| Matchers.WildCaptureExcludesTerminator | pybd/expression.py:93-98 | On Accept the wildcard captures exactly one run, which holds only presses and never a press of the terminator. |
| Matchers.MatchWild | pybd/expression.py:91-100 | The `enumerate` loop returns Accept at the first terminator press, leaving the events after it and capturing the earlier presses in order. It returns Partial with nothing left when there is no terminator press. This is exactly `RunWild`. The older copy has the same code at expression.py:89-98. |
| Matchers.RunWellFormed | pybd/expression.py:63-100 | Every matcher leaves a suffix of its input, and leaves nothing when it says Partial. |
| Matchers.RunSequenceWellFormed | pybd/expression.py:78-89 | A sequence threads suffixes, so its remainder is a suffix of its input. It is empty on Partial. |
| Matchers.RunSequenceAppend | pybd/expression.py:78-89 | Running children `a + b` runs `a`, stops if `a` rejects, and otherwise runs `b` on `a`'s remainder, concatenating the captures. |
| Matchers.SingletonSequence | pybd/expression.py:78-89 | A one-child sequence behaves as its child, except that a Reject drops the child's captures. |
| Matchers.MatchSequence | pybd/expression.py:78-89 | The loop starts as Accept on the whole buffer and feeds each child the previous remainder. It breaks on Reject before adding that child's captures, and continues on Partial. This is exactly `RunSequence`. The older copy has the same code at expression.py:76-87. |
| Matchers.Evaluate | pybd/expression.py:35-39 | Calling a compiled matcher on a buffer gives `Run`. |
| Grammar.GrammarRanked | pybd/expression.py:14-19 | Every alternative of every rule is non-empty and starts with a lower rule, which is why the recursive descent terminates. |
| Grammar.MatchTerminal | pybd/expression.py:60-61 | A regular-expression atom that matches consumes a non-empty prefix, and the text is that prefix followed by the rest. |
| Grammar.Parse | pybd/expression.py:52-61 | A successful parse leaves a proper suffix of the text. |
| Grammar.ParseVariants | pybd/expression.py:53-58 | Trying a rule's alternatives in order leaves a proper suffix when one succeeds. |
| Grammar.ParseSeq | pybd/expression.py:43-50 | Parsing an alternative gives one tree per atom and leaves a suffix, shorter than the text when the alternative is non-empty. |
| Grammar.ParseAtom | pybd/expression.py:52-61 | The loop over the alternatives returns the first that parses, or nothing. This is exactly `Parse`. |
| Grammar.ParseSequenceOf | pybd/expression.py:43-50 | The loop of `parse_seq` parses each atom on what the previous one left and stops at the first failure. This is exactly `ParseSeq`. |
| Grammar.ParseTwoChoices | pybd/expression.py:54-57 | For a rule with two one-atom alternatives, the first alternative wins whenever it parses. |
| Grammar.LiteralTokenIsLiteral | pybd/expression.py:15-18 | The `literal` rule finds a literal exactly when the text starts with one, and the token it finds is a literal. |
| Grammar.LexSplitsGreedily | pybd/expression.py:52-61 | The text is its greedy run of literals followed by a remainder that starts with no literal. |
| Grammar.ParseLiteral | pybd/expression.py:15 | `literal` yields the `button` or `wild` tree of the literal at the start of the text, or fails. |
| Grammar.ParseSequenceStep | pybd/expression.py:17 | `sequence` parses one literal, then tries a further `sequence`, and falls back to the single literal. |
| Grammar.ParseSequenceIsGreedy | pybd/expression.py:43-61 | Parsing a `sequence` fails exactly when no literal starts the text. Otherwise it gives the right-nested tree over the greedy run of literals, with the rest of the text as remainder. The older copy has the same code at expression.py:41-59. |
| Compiler.StripLeft | pybd/expression.py:107 | `lstrip("<>")`: the result is no longer than the text and does not start with a bracket. StripLeftCutsBrackets states what is cut off. |
| Compiler.StripLeftCutsBrackets | pybd/expression.py:107 | The result of `lstrip("<>")` is a suffix of the text, and everything cut off before it is a bracket. |
| Compiler.StripRight | pybd/expression.py:107 | `rstrip("<>")`: the result is a prefix of the text and does not end with a bracket. StripRightCutsBrackets states what is cut off. |
| Compiler.StripRightCutsBrackets | pybd/expression.py:107 | Everything `rstrip("<>")` cuts off after the result is a bracket. |
| Compiler.StripBrackets | pybd/expression.py:107 | `strip("<>")`: the result is no longer than the text and neither starts nor ends with a bracket. StripBracketsKeepsMiddle states that the middle is kept. |
| Compiler.StripBracketsKeepsMiddle | pybd/expression.py:107 | The result of `strip("<>")` is a slice `s[i..j]` of the text with only brackets before `i` and after `j`. So exactly the brackets at the two ends are dropped and the middle is kept. |
| Compiler.StripBracketsOfLiteral | pybd/expression.py:107 | Stripping a button literal gives its key name. |
| Compiler.Compile | pybd/expression.py:102-113 | `compile`: a `literal` node compiles its child, a `button` node becomes a press button on the resolved, bracket-stripped key name, a `wild` node a wildcard on the terminator code, and a `sequence` node a sequence of its compiled children; any other name is the "No such method" error. CompileSequenceTree characterizes it on every tree the parser builds. |
| Compiler.CompileAll | pybd/expression.py:112 | Compiling the children gives one matcher per child. |
| Compiler.CompileAllPointwise | pybd/expression.py:111-112 | The children compile exactly when each child does, and the matchers are in order. Otherwise the error is that of the first failing child. |
| Compiler.CompileLiteral | pybd/expression.py:102-110 | The tree of one literal compiles to that literal's matcher: a wildcard on the terminator code for `*`, otherwise a press button on the resolved key name between the brackets. |
| Compiler.CompileSequenceTree | pybd/expression.py:102-113 | Every tree the parser builds compiles without error to nested sequences of the literals' matchers: a press button of the resolved key name, or a wildcard on the terminator code. The older copy at expression.py:108-119 compiles the same trees the same way; it resolves key names through `translate_code` instead, which `resolve` stands for. |
| Compiler.NestRunsLikeFlat | pybd/expression.py:111-112 | The right-nested sequences the compiler builds run like one flat sequence of the same matchers: the same state and remainder, and the same captures unless they reject. |
| Expressions.Build | pybd/expression.py:25-33 | The constructor once the terminator code is known: an empty pattern is an error, otherwise parse it as a `sequence`, refuse leftover text ("Not valid pattern"), and compile. BuildAcceptsLiteralStrings characterizes it. |
| Expressions.BuildAcceptsLiteralStrings | pybd/expression.py:25-33 | A pattern builds exactly when it is non-empty and made only of literals. It fails as unparsable exactly when no literal starts it, and as not valid exactly when text follows the literals. |
| Expressions.New | pybd/expression.py:21-31 | A built expression keeps its pattern, and its wildcard terminator is the code of the bracket-stripped `wildchar`. |
| Expressions.NewWithScancode | expression.py:23-29 | A built expression keeps its pattern, and its wildcard terminator is the scancode argument. |
| Expressions.BuiltWildsEndOnWildcode | expression.py:115-116 | Every wildcard of a built expression ends on the expression's terminator code. |
| Expressions.Forced | pybd/expression.py:41 | The verdict `process` returns for a matcher result: Reject when events are left over, the matcher's state otherwise. Process states its consequences. |
| Expressions.RenderRun | pybd/expression.py:40 | One capture run rendered as the concatenation of its events' renderings, in order. Process relies on it for the replies. |
| Expressions.Process | pybd/expression.py:38-41 | Accept exactly when the matcher accepts and consumes everything; Partial exactly when it says Partial; Reject otherwise. There is one rendered string per capture run, in order. The older copy at expression.py:36-39 forces the verdict the same way; it renders captured events differently, which `render` stands for. |
| Expressions.Call | pybd/expression.py:35-36 | Calling an expression runs the matcher loops and gives `Process`. |
| Expressions.ProcessRunsLiteralsInOrder | pybd/expression.py:25-41 | A built expression judges a buffer as the flat sequence of its literals' matchers does, with the same replies on Accept. |
| Config.Get | pybd/processor.py:79-82 | A missing key reads as `None`, a dict value comes back wrapped as a `d_dict`, and any other value comes back as stored. |
| Config.GetThroughWrapped | pybd/processor.py:79-82 | A lookup in a wrapped dict is a lookup in the stored dict. |
| Config.Split | pybd/processor.py:100 | `split` gives at least one piece, no piece holds the separator, and joining the pieces gives back the text. |
| Config.SplitUnique | pybd/processor.py:100-102 | Splitting a join of separator-free pieces gives those pieces back. |
| Config.KeyValueCutsAtFirstEquals | pybd/processor.py:102-103 | A `k=v` argument is cut at its first `=`, so the value keeps any later `=`. An argument without `=` is all key, with the empty value. |
| Config.ToDict | pybd/processor.py:104 | The keys of the dict are exactly the keys of the pairs. |
| Config.ToDictLastWins | pybd/processor.py:104 | A key is bound to the value of the last pair that carries it. |
| Config.KeyValue | pybd/processor.py:102-103 | One argument word split at `=` and joined back after the first piece: the key and the value. KeyValueCutsAtFirstEquals characterizes it. |
| Config.SplitHeader | pybd/processor.py:99-104 | `split_header`: the first space-separated word names the handler, and the other words become the arguments of a `d_dict`. SplitHeaderHead and ArgumentsOfWords characterize it. |
| Config.SplitHeaderHead | pybd/processor.py:99-101 | The handler name is the header up to its first space (the whole header when there is none), and the arguments are a `d_dict`. |
| Config.ArgumentsOfWords | pybd/processor.py:101-104 | The argument keys are exactly the keys of the words after the head. Each is bound to the text after the first `=` of the last word with that key, and a missing argument reads as `None`. |
| Processing.Scan | pybd/processor.py:45-55 | One pass of `handle_event` over the bindings: the first Accept fires its handler with the replies and flushes; a Partial keeps the buffer when no binding accepts. ScanFiresOnAccept, ScanFiresFirstAccept and ScanRetainsOnPartial characterize it. |
| Processing.BindingFor | pybd/processor.py:38-41 | The binding appended for one pattern: the `Expression(pattern)` with the default `"<ENTER>"` terminator, and the handler built from the group's header and the pattern's command; the pattern's construction error when it does not build. LoadGroup and LoadExpressions are stated through it. |
| Processing.ScanFiresOnAccept | pybd/processor.py:46-51 | A handler is called exactly when some binding accepts the buffer. |
| Processing.ScanFiresFirstAccept | pybd/processor.py:46-51 | The handler called is that of the first accepting binding in list order, with that binding's rendered captures. |
| Processing.ScanRetainsOnPartial | pybd/processor.py:45-55 | The buffer is kept exactly when no binding accepts and some binding says Partial. A Partial before an Accept does not keep it. |
| Processing.Processor.constructor | pybd/processor.py:21-24 | A new processor has an empty buffer, no bindings and no calls. |
| Processing.Processor.FlushBuffer | pybd/processor.py:57-58 | The buffer becomes empty and nothing else changes. |
| Processing.Processor.HandleEvent | pybd/processor.py:43-55 | The event is appended, then the bindings are scanned on the whole buffer. The first accepting binding's handler is called once, and no other. The buffer is then the old buffer plus the event if `Scan` retains it, and empty otherwise. The bindings never change. |
| Processing.Processor.LoadGroup | pybd/processor.py:38-41 | One handler group. When the header's handler name is not registered, the `UnknownHandler` error is returned before any of its patterns is appended. Otherwise its patterns are appended in order, each with the handler built from the group header. At the first pattern that fails to build, the error is returned with the earlier bindings in place. |
| Processing.Processor.LoadPatterns | pybd/processor.py:40-41 | The inner loop over the patterns of a group whose handler is registered: they are appended in order, each with the group's handler. At the first pattern that fails to build, its error is returned with the earlier bindings in place. |
| Processing.Processor.LoadExpressions | pybd/processor.py:34-41 | With `flush` the list starts empty; otherwise the old bindings stay in front. Then, group by group, the handler name is looked up and one binding per pattern is appended. Loading stops at the first group whose handler name is not registered, or at the first pattern that fails to build, and returns that error with everything before it appended. Without an error, every group's handler is registered and every pattern is loaded. Buffer and calls are unchanged. |
| UnitCases.ButtonCases | unittests/test.py:69-72 | The button cases of the unit test: accept, accept with a leftover event, reject without consuming, and skip a release. |
| UnitCases.SequenceCasesShort | unittests/test.py:76-78 | A two-button sequence is Partial until the second press, and a release after the first press is skipped. |
| UnitCases.SequenceCasesLong | unittests/test.py:79-80 | A release after the second press is left over, and one between the presses is skipped. |
| UnitCases.WildCases | unittests/test.py:84-86 | The wildcard cases: captures before the terminator, the events after it left over, and Partial without a terminator. |
| UnitCases.NestedSequenceCase | unittests/test.py:90 | A sequence then a wildcard accepts with one empty capture run. |
| UnitCases.DoublyNestedSequenceCase | unittests/test.py:91 | A wildcard then the previous pattern accepts with the two capture runs in order. |
| UnitCases.ParseCases | unittests/test.py:95-102 | The parse trees of "a", "ab", "a*b" and "<Enter>a", each with nothing left. |
| UnitCases.DefaultWildcharNamesEnter | pybd/expression.py:21-25 | The default wildchar `"<ENTER>"` names the key `ENTER` once its brackets are stripped. |
| UnitCases.CompileCases | unittests/test.py:110-132 | The compiled "a", "<Enter>", "ab" and "a*b" give the same results as the hand-built combinators on every buffer. |
| UnitCases.InitCase | unittests/test.py:134-140 | `Expression("ab")` accepts release/press of a then release/press of b, with no captures. |
| UnitCases.DispatchCases | pybd/processor.py:43-55 | With the one binding "ab": a press of a keeps the buffer; then b fires the handler with no captures and flushes; an unrelated second press flushes without firing. |

## Left out

- `Translator`, and `translate_code` / `event_to_string` in expression.py: these use the evdev code table and the X display. Key-name lookup and rendering are the parameters `resolve` and `render`, and no table is reproduced. The device type (`key` or `button` prefix) is part of `resolve`.
- Expressions.Process: the rendering of an event is abstract, so the model states one rendered string per capture run made of the rendered events in order, not what the characters are. The Python code at pybd/expression.py:40 passes the event object, not its scancode, to `code_to_char`, which for the `key` device computes `code + 8` on it (pybd/expression.py:135) and so raises on any non-empty capture run; the model renders such runs instead.
- The empty pattern: the Python code binds a tuple instead of a matcher, so calling such an expression fails. The model reports it as the `EmptyPattern` construction error.
- A pattern that starts with no literal: `parse` gives `(None, None)` and `compile(None)` then fails with a Python type error. The model reports it as the `Unparsable` construction error.
- `set_wildchar` stores the terminator in a class attribute shared by every `Expression`. The model gives each expression its own terminator code, as a constructor argument.
- The in-file tests of expression.py contradict the code next to them and are not modelled. The unit cases follow unittests/test.py.
- `Processor.__init__` (reading the configuration files), `ConfigReader.load` (comment stripping and JSON parsing), `init_device`, `exit` and `run` (the `select` loop over devices and the filter that drops auto-repeat events) are I/O and are not modelled. `HandleEvent` takes the events `run` would pass.
- Processing.Processor.LoadExpressions: the configuration lookup `config["expressions"][sceme]` is not modelled. The caller passes the scheme's handler groups, each with its patterns in dict order.
- Handlers (pybd/handler.py) run shell commands, write to pipes and evaluate callbacks. A handler is represented by the name, arguments and command it was built from, and a call is recorded in `invocations`. A handler that raises would abort `handle_event`; this is not modelled.
- The handler registry of `HandlerFactory` is the parameter `handlers`, the set of registered names ("dummy", "shell", "pipe" and "callback" in pybd/handler.py). The `KeyError` for an unregistered name is the `UnknownHandler` load error.
- `AbstractHandler.init` updates `params`, a class attribute, in place, so the handlers of one class share their arguments. The model keeps each handler's own arguments.
- The `singleton` decorator, and `event_buffer` and `expressions` being class attributes shared between instances, are not modelled: the processor is one object with its own fields.
- Config.Value: JSON numbers are integers and floating point is not modelled. JSON arrays and nested objects are kept as values but never interpreted.
- Device handling (pybd/device.py, device.py), the prototype pybd.py, pybd_test.py, run.py, callbacks.py and pybd/utils.py are not part of this model.
