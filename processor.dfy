/**
 * The dispatcher of pybd/processor.py: `Processor` owns the buffer of events seen since the
 * last flush and the ordered list of (expression, handler) bindings. After every event it
 * runs the bindings in order on the whole buffer, calls the handler of the first one that
 * accepts, and keeps the buffer only when no binding accepted and some binding needs more
 * events.
 *
 * Handlers are foreign code (shell commands, pipes, callbacks): a handler is represented by
 * what it was built from, and calling it is recorded in `invocations`.
 */
module Processing {
  import opened Wrappers
  import opened Matchers
  import opened Expressions
  import Config

  /** What `HandlerFactory(name, args)(command)` was built from. */
  datatype Handler = Handler(name: string, args: Config.Value, command: string)

  /** One `(Expression, handler)` pair of `expressions`. */
  datatype Binding = Binding(expression: Expression, handler: Handler)

  /** A call `handler(extracted)` made by `handle_event`. */
  datatype Invocation = Invocation(handler: Handler, replies: seq<string>)

  /** What one pass over the bindings decides: the handler call it makes, if any, and
      whether the buffer is kept (`flush` false at the end of the loop). */
  datatype Decision = Decision(fired: Option<Invocation>, retain: bool)

  /** The verdict of binding `i` on the buffer. */
  function VerdictAt(bindings: seq<Binding>, i: nat, keys: seq<Event>, render: Event -> string): Verdict
    requires i < |bindings|
  {
    Process(bindings[i].expression, keys, render)
  }

  /** The loop of `handle_event` over the bindings: the first Accept fires and ends the
      scan with a flush; a Partial keeps the buffer unless a later binding accepts. */
  function Scan(bindings: seq<Binding>, keys: seq<Event>, render: Event -> string): Decision
    decreases |bindings|
  {
    if bindings == [] then Decision(None, false)
    else
      var v := Process(bindings[0].expression, keys, render);
      if v.state == Accept then Decision(Some(Invocation(bindings[0].handler, v.replies)), false)
      else
        var later := Scan(bindings[1..], keys, render);
        if v.state == Partial then Decision(later.fired, later.fired.None?) else later
  }

  /** A handler is called exactly when some binding accepts. */
  lemma {:induction false} ScanFiresOnAccept(bindings: seq<Binding>, keys: seq<Event>, render: Event -> string)
    ensures Scan(bindings, keys, render).fired.Some? <==>
      exists i :: 0 <= i < |bindings| && VerdictAt(bindings, i, keys, render).state == Accept
    decreases |bindings|
  {
    if bindings != [] && VerdictAt(bindings, 0, keys, render).state != Accept {
      var later := bindings[1..];
      ScanFiresOnAccept(later, keys, render);
      if exists i :: 0 <= i < |bindings| && VerdictAt(bindings, i, keys, render).state == Accept {
        var i :| 0 <= i < |bindings| && VerdictAt(bindings, i, keys, render).state == Accept;
        assert later[i - 1] == bindings[i];
        assert VerdictAt(later, i - 1, keys, render).state == Accept;
      }
      if exists i :: 0 <= i < |later| && VerdictAt(later, i, keys, render).state == Accept {
        var i :| 0 <= i < |later| && VerdictAt(later, i, keys, render).state == Accept;
        assert later[i] == bindings[i + 1];
        assert VerdictAt(bindings, i + 1, keys, render).state == Accept;
      }
    }
  }

  /** First registered wins: the handler called is that of the first accepting binding,
      with that binding's rendered captures. */
  lemma {:induction false} ScanFiresFirstAccept(bindings: seq<Binding>, i: nat, keys: seq<Event>, render: Event -> string)
    requires i < |bindings| && VerdictAt(bindings, i, keys, render).state == Accept
    requires forall j :: 0 <= j < i ==> VerdictAt(bindings, j, keys, render).state != Accept
    ensures Scan(bindings, keys, render).fired == Some(Invocation(bindings[i].handler, VerdictAt(bindings, i, keys, render).replies))
    decreases i
  {
    if i > 0 {
      var later := bindings[1..];
      assert VerdictAt(bindings, 0, keys, render).state != Accept;
      forall j | 0 <= j <= i - 1
        ensures VerdictAt(later, j, keys, render) == VerdictAt(bindings, j + 1, keys, render)
      {
        assert later[j] == bindings[j + 1];
      }
      ScanFiresFirstAccept(later, i - 1, keys, render);
    }
  }

  /** No binding accepts the buffer. */
  predicate NoneAccepts(bindings: seq<Binding>, keys: seq<Event>, render: Event -> string) {
    forall i :: 0 <= i < |bindings| ==> VerdictAt(bindings, i, keys, render).state != Accept
  }

  /** Some binding says Partial on the buffer. */
  predicate SomePartial(bindings: seq<Binding>, keys: seq<Event>, render: Event -> string) {
    exists i :: 0 <= i < |bindings| && VerdictAt(bindings, i, keys, render).state == Partial
  }

  /** The verdicts of `bindings[1..]` are those of `bindings` from the second on. */
  lemma VerdictsOfTail(bindings: seq<Binding>, keys: seq<Event>, render: Event -> string)
    requires bindings != []
    ensures forall i :: 0 < i < |bindings| ==>
      VerdictAt(bindings, i, keys, render) == VerdictAt(bindings[1..], i - 1, keys, render)
  {
    forall i | 0 < i < |bindings|
      ensures VerdictAt(bindings, i, keys, render) == VerdictAt(bindings[1..], i - 1, keys, render)
    {
      assert bindings[1..][i - 1] == bindings[i];
    }
  }

  lemma NoneAcceptsCons(bindings: seq<Binding>, keys: seq<Event>, render: Event -> string)
    requires bindings != []
    ensures NoneAccepts(bindings, keys, render) <==>
      VerdictAt(bindings, 0, keys, render).state != Accept && NoneAccepts(bindings[1..], keys, render)
  {
    VerdictsOfTail(bindings, keys, render);
    if NoneAccepts(bindings, keys, render) {
      forall i | 0 <= i < |bindings[1..]| ensures VerdictAt(bindings[1..], i, keys, render).state != Accept {
        assert VerdictAt(bindings, i + 1, keys, render).state != Accept;
      }
    }
  }

  lemma SomePartialCons(bindings: seq<Binding>, keys: seq<Event>, render: Event -> string)
    requires bindings != []
    ensures SomePartial(bindings, keys, render) <==>
      VerdictAt(bindings, 0, keys, render).state == Partial || SomePartial(bindings[1..], keys, render)
  {
    VerdictsOfTail(bindings, keys, render);
    if SomePartial(bindings[1..], keys, render) {
      var i :| 0 <= i < |bindings[1..]| && VerdictAt(bindings[1..], i, keys, render).state == Partial;
      assert VerdictAt(bindings, i + 1, keys, render).state == Partial;
    }
  }

  /** The buffer is kept exactly when no binding accepts and some binding says Partial; a
      Partial before the accepting binding does not keep it. */
  lemma {:induction false} ScanRetainsOnPartial(bindings: seq<Binding>, keys: seq<Event>, render: Event -> string)
    ensures Scan(bindings, keys, render).retain <==>
      NoneAccepts(bindings, keys, render) && SomePartial(bindings, keys, render)
    decreases |bindings|
  {
    if bindings != [] {
      NoneAcceptsCons(bindings, keys, render);
      SomePartialCons(bindings, keys, render);
      if VerdictAt(bindings, 0, keys, render).state != Accept {
        var later := bindings[1..];
        ScanRetainsOnPartial(later, keys, render);
        ScanFiresOnAccept(later, keys, render);
        if Scan(later, keys, render).fired.None? {
          assert NoneAccepts(later, keys, render);
        } else {
          var i :| 0 <= i < |later| && VerdictAt(later, i, keys, render).state == Accept;
          assert !NoneAccepts(later, keys, render);
        }
      }
    }
  }

  /** How far the scan has got: the decision of the bindings still to run, adjusted by
      whether a Partial has already been seen (`flush` false). */
  function Resume(flush: bool, d: Decision): Decision {
    if flush then d else Decision(d.fired, d.fired.None?)
  }

  /** The pybd `Expression(pattern)` constructor, with its default wildcard key. */
  const DefaultWildchar := "<ENTER>"

  /** The handler header of a group and its `pattern: command` entries, in the order the
      configuration's dicts yield them. */
  datatype Group = Group(header: string, commands: seq<(string, string)>)

  /** One pattern of one group. */
  datatype Entry = Entry(header: string, pattern: string, command: string)

  function GroupEntries(g: Group): (es: seq<Entry>)
    ensures |es| == |g.commands|
    ensures forall k :: 0 <= k < |es| ==> es[k] == Entry(g.header, g.commands[k].0, g.commands[k].1)
  {
    seq(|g.commands|, k requires 0 <= k < |g.commands| => Entry(g.header, g.commands[k].0, g.commands[k].1))
  }

  /** Every pattern of every group, group by group. */
  function Entries(groups: seq<Group>): seq<Entry> {
    if groups == [] then [] else Entries(groups[..|groups| - 1]) + GroupEntries(groups[|groups| - 1])
  }

  /** `(Expression(pattern), Handler(command))` for one pattern, with the handler named by the
      group's header; the expression may fail to build. */
  function BindingFor(e: Entry, resolve: string -> Option<int>): Result<Binding, ExpressionError> {
    var (name, args) := Config.SplitHeader(e.header);
    match New(e.pattern, DefaultWildchar, resolve)
    case Failure(err) => Failure(err)
    case Success(x) => Success(Binding(x, Handler(name, args, e.command)))
  }

  predicate AllBuild(es: seq<Entry>, resolve: string -> Option<int>) {
    forall i :: 0 <= i < |es| ==> BindingFor(es[i], resolve).Success?
  }

  /** The bindings of patterns that all build, one per pattern, in order. */
  function BindingsOf(es: seq<Entry>, resolve: string -> Option<int>): (bs: seq<Binding>)
    requires AllBuild(es, resolve)
    ensures |bs| == |es|
  {
    seq(|es|, i requires 0 <= i < |es| && AllBuild(es, resolve) => BindingFor(es[i], resolve).value)
  }

  lemma BindingsOfSnoc(es: seq<Entry>, e: Entry, resolve: string -> Option<int>)
    requires AllBuild(es, resolve) && BindingFor(e, resolve).Success?
    ensures AllBuild(es + [e], resolve)
    ensures BindingsOf(es + [e], resolve) == BindingsOf(es, resolve) + [BindingFor(e, resolve).value]
  {
    assert forall i :: 0 <= i < |es| ==> (es + [e])[i] == es[i];
  }

  /** Every pattern of `es` built, and `expressions` is `base` followed by their bindings. */
  predicate Loaded(es: seq<Entry>, resolve: string -> Option<int>, base: seq<Binding>, expressions: seq<Binding>) {
    AllBuild(es, resolve) && expressions == base + BindingsOf(es, resolve)
  }

  /** Why `load_expressions` stops: `HandlerFactory` finds no handler registered under the
      name of a group's header (a `KeyError`), or a pattern does not build. */
  datatype LoadError = UnknownHandler(name: string) | BadPattern(error: ExpressionError)

  /** The handler name of a group: the head of its header. */
  function HandlerName(g: Group): string {
    Config.SplitHeader(g.header).0
  }

  /** Every group names a handler in `handlers`, the names registered with `HandlerFactory`. */
  predicate AllRegistered(groups: seq<Group>, handlers: set<string>) {
    forall i :: 0 <= i < |groups| ==> HandlerName(groups[i]) in handlers
  }

  /** Loading `group`, after the patterns `done` were appended to `base`, stopped with `err`
      after its first `k` patterns: either its handler name is not registered, `k` is 0 and
      nothing of the group was appended, or the handler is registered, the patterns before
      `k` were appended and pattern `k` failed to build. */
  predicate GroupStoppedAt(group: Group, k: int, err: LoadError, resolve: string -> Option<int>,
                           handlers: set<string>, done: seq<Entry>, base: seq<Binding>, expressions: seq<Binding>) {
    && 0 <= k <= |group.commands|
    && (if HandlerName(group) !in handlers then k == 0 && err == UnknownHandler(HandlerName(group))
        else k < |group.commands| && err.BadPattern? && BindingFor(GroupEntries(group)[k], resolve) == Failure(err.error))
    && Loaded(done + GroupEntries(group)[..k], resolve, base, expressions)
  }

  /** Loading `groups` stopped in group `g` after its first `k` patterns: the groups before
      it were all registered and loaded, and group `g` stopped as `GroupStoppedAt` says. */
  predicate StoppedAt(groups: seq<Group>, g: int, k: int, err: LoadError, resolve: string -> Option<int>,
                      handlers: set<string>, base: seq<Binding>, expressions: seq<Binding>) {
    && 0 <= g < |groups|
    && AllRegistered(groups[..g], handlers)
    && GroupStoppedAt(groups[g], k, err, resolve, handlers, Entries(groups[..g]), base, expressions)
  }

  /** Appending the binding of pattern `k` extends what is loaded by that pattern. */
  lemma LoadStep(es: seq<Entry>, k: nat, resolve: string -> Option<int>,
                 done: seq<Entry>, base: seq<Binding>, expressions: seq<Binding>)
    requires k < |es| && Loaded(done + es[..k], resolve, base, expressions)
    requires BindingFor(es[k], resolve).Success?
    ensures Loaded(done + es[..k + 1], resolve, base, expressions + [BindingFor(es[k], resolve).value])
  {
    BindingsOfSnoc(done + es[..k], es[k], resolve);
    assert done + es[..k] + [es[k]] == done + es[..k + 1];
  }

  /** A group whose handler name is not registered stops before its first pattern. */
  lemma UnregisteredStops(group: Group, resolve: string -> Option<int>, handlers: set<string>,
                          done: seq<Entry>, base: seq<Binding>, expressions: seq<Binding>)
    requires HandlerName(group) !in handlers && Loaded(done, resolve, base, expressions)
    ensures GroupStoppedAt(group, 0, UnknownHandler(HandlerName(group)), resolve, handlers, done, base, expressions)
  {
    assert done + GroupEntries(group)[..0] == done;
  }

  /** A registered group stops at the first of its patterns that does not build. */
  lemma BadPatternStops(group: Group, k: nat, e: ExpressionError, resolve: string -> Option<int>, handlers: set<string>,
                        done: seq<Entry>, base: seq<Binding>, expressions: seq<Binding>)
    requires HandlerName(group) in handlers && k < |group.commands|
    requires Loaded(done + GroupEntries(group)[..k], resolve, base, expressions)
    requires BindingFor(GroupEntries(group)[k], resolve) == Failure(e)
    ensures GroupStoppedAt(group, k, BadPattern(e), resolve, handlers, done, base, expressions)
  {
  }

  /** One more group loaded: its patterns follow those of the groups before it. */
  lemma EntriesStep(groups: seq<Group>, g: nat)
    requires g < |groups|
    ensures Entries(groups[..g + 1]) == Entries(groups[..g]) + GroupEntries(groups[g])
  {
    assert groups[..g + 1][..g] == groups[..g];
  }

  /** A registered handler for one more group extends `AllRegistered`. */
  lemma RegisteredStep(groups: seq<Group>, g: nat, handlers: set<string>)
    requires g < |groups| && AllRegistered(groups[..g], handlers) && HandlerName(groups[g]) in handlers
    ensures AllRegistered(groups[..g + 1], handlers)
  {
    var longer, shorter := groups[..g + 1], groups[..g];
    forall i | 0 <= i < |longer|
      ensures HandlerName(longer[i]) in handlers
    {
      if i < g {
        assert longer[i] == shorter[i];
      }
    }
  }

  class Processor {
    /** Events since the last flush, oldest first. */
    var eventBuffer: seq<Event>
    /** The `(Expression, handler)` pairs, in registration order. */
    var expressions: seq<Binding>
    /** The handler calls made so far, oldest first. */
    var invocations: seq<Invocation>

    /** A processor before any configuration is loaded. */
    constructor ()
      ensures eventBuffer == [] && expressions == [] && invocations == []
    {
      eventBuffer := [];
      expressions := [];
      invocations := [];
    }

    /** `flush_buffer`: forget the buffered events. */
    method FlushBuffer()
      modifies this
      ensures eventBuffer == []
      ensures expressions == old(expressions) && invocations == old(invocations)
    {
      eventBuffer := [];
    }

    /** `handle_event(event)`: append the event, then scan the bindings on the whole buffer.
        The handler of the first accepting binding is called once with its captures; the
        buffer is then empty unless no binding accepted and some binding said Partial, in
        which case it is the old buffer with the event appended. The bindings never change. */
    method HandleEvent(event: Event, render: Event -> string)
      modifies this
      ensures expressions == old(expressions)
      ensures var d := Scan(expressions, old(eventBuffer) + [event], render);
        && invocations == old(invocations) + (if d.fired.Some? then [d.fired.value] else [])
        && eventBuffer == (if d.retain then old(eventBuffer) + [event] else [])
    {
      eventBuffer := eventBuffer + [event];
      var flush := true;
      var i := 0;
      while i < |expressions|
        invariant 0 <= i <= |expressions|
        invariant expressions == old(expressions) && invocations == old(invocations)
        invariant eventBuffer == old(eventBuffer) + [event]
        invariant Scan(expressions, eventBuffer, render) == Resume(flush, Scan(expressions[i..], eventBuffer, render))
      {
        assert expressions[i..][1..] == expressions[i + 1..];
        var binding := expressions[i];
        var verdict := Call(binding.expression, eventBuffer, render);
        if verdict.state == Accept {
          invocations := invocations + [Invocation(binding.handler, verdict.replies)];
          flush := true;
          break;
        }
        if verdict.state == Partial {
          flush := false;
        }
        i := i + 1;
      }
      if flush {
        FlushBuffer();
      }
    }

    /** One group of `load_expressions`, after the patterns `done` have been appended to
        `base`: the handler is looked up by the header's name first, then the group's
        patterns are appended in order until one fails to build. */
    method LoadGroup(group: Group, resolve: string -> Option<int>, handlers: set<string>,
                     ghost base: seq<Binding>, ghost done: seq<Entry>)
      returns (err: Option<LoadError>)
      requires Loaded(done, resolve, base, expressions)
      modifies this
      ensures eventBuffer == old(eventBuffer) && invocations == old(invocations)
      ensures err.None? ==> HandlerName(group) in handlers && Loaded(done + GroupEntries(group), resolve, base, expressions)
      ensures err.Some? ==> exists k :: GroupStoppedAt(group, k, err.value, resolve, handlers, done, base, expressions)
    {
      var name := HandlerName(group);
      if name !in handlers {
        UnregisteredStops(group, resolve, handlers, done, base, expressions);
        return Some(UnknownHandler(name));
      }
      err := LoadPatterns(group, resolve, handlers, base, done);
    }

    /** The inner loop of `load_expressions`: the patterns of a group whose handler is
        registered, appended in order until one fails to build. */
    method LoadPatterns(group: Group, resolve: string -> Option<int>, handlers: set<string>,
                        ghost base: seq<Binding>, ghost done: seq<Entry>)
      returns (err: Option<LoadError>)
      requires HandlerName(group) in handlers && Loaded(done, resolve, base, expressions)
      modifies this
      ensures eventBuffer == old(eventBuffer) && invocations == old(invocations)
      ensures err.None? ==> Loaded(done + GroupEntries(group), resolve, base, expressions)
      ensures err.Some? ==> exists k :: GroupStoppedAt(group, k, err.value, resolve, handlers, done, base, expressions)
    {
      ghost var es := GroupEntries(group);
      assert done + es[..0] == done;
      var k := 0;
      while k < |group.commands|
        invariant 0 <= k <= |group.commands|
        invariant eventBuffer == old(eventBuffer) && invocations == old(invocations)
        invariant Loaded(done + es[..k], resolve, base, expressions)
      {
        var entry := Entry(group.header, group.commands[k].0, group.commands[k].1);
        assert es[k] == entry;
        var built := BindingFor(entry, resolve);
        if built.Failure? {
          BadPatternStops(group, k, built.error, resolve, handlers, done, base, expressions);
          return Some(BadPattern(built.error));
        }
        LoadStep(es, k, resolve, done, base, expressions);
        expressions := expressions + [built.value];
        k := k + 1;
      }
      assert es[..k] == es;
      return None;
    }

    /** `load_expressions(sceme, flush)` over the groups of one scheme: with `flush` the list
        starts empty; then, group by group, the handler is looked up and one binding per
        pattern is appended. At an unregistered handler name or a pattern that does not
        build, the error is returned and everything appended before it stays. */
    method LoadExpressions(groups: seq<Group>, flush: bool, resolve: string -> Option<int>, handlers: set<string>)
      returns (err: Option<LoadError>)
      modifies this
      ensures eventBuffer == old(eventBuffer) && invocations == old(invocations)
      ensures var base := if flush then [] else old(expressions);
        && (err.None? ==> AllRegistered(groups, handlers) && Loaded(Entries(groups), resolve, base, expressions))
        && (err.Some? ==> exists g, k :: StoppedAt(groups, g, k, err.value, resolve, handlers, base, expressions))
    {
      err := None;
      if flush {
        expressions := [];
      }
      ghost var base := expressions;
      assert Entries(groups[..0]) == [];
      assert base + BindingsOf([], resolve) == base;
      var g := 0;
      while g < |groups|
        invariant 0 <= g <= |groups|
        invariant err.None?
        invariant eventBuffer == old(eventBuffer) && invocations == old(invocations)
        invariant base == if flush then [] else old(expressions)
        invariant AllRegistered(groups[..g], handlers)
        invariant Loaded(Entries(groups[..g]), resolve, base, expressions)
      {
        ghost var done := Entries(groups[..g]);
        err := LoadGroup(groups[g], resolve, handlers, base, done);
        if err.Some? {
          ghost var k :| GroupStoppedAt(groups[g], k, err.value, resolve, handlers, done, base, expressions);
          assert StoppedAt(groups, g, k, err.value, resolve, handlers, base, expressions);
          return;
        }
        EntriesStep(groups, g);
        RegisteredStep(groups, g, handlers);
        g := g + 1;
      }
      assert groups[..g] == groups;
    }
  }
}
